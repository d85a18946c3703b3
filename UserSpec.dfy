/**
 * The examples of `spec/models/user_spec.rb`, each run against a fresh,
 * empty store, for every key-derivation function and every salt.
 */
module UserSpec {
  import opened Wrappers
  import opened Text
  import opened Passwords
  import opened Accounts
  import opened Validation
  import opened Store

  // The sample lemmas below take their strings as parameters pinned by
  // `requires`, which keeps the solver from unfolding the literals.

  /** The well-formed emails the examples use. */
  lemma SampleEmails(lower: string, upper: string, digits: string, boop: string)
    requires lower == "123@abc.com" && upper == "123@ABC.COM"
    requires digits == "abc@123.com" && boop == "boop@beep.com"
    ensures WellFormedEmail(lower) && WellFormedEmail(upper)
    ensures WellFormedEmail(digits) && WellFormedEmail(boop)
  {
    assert lower[3] == '@' && lower[7] == '.';
    assert upper[3] == '@' && upper[7] == '.';
    assert digits[3] == '@' && digits[7] == '.';
    assert boop[4] == '@' && boop[9] == '.';
  }

  /** The differently cased emails of the examples normalise alike:
      `"123@ABC.COM"` and `"123@abc.COM"` like `"123@abc.com"`. */
  lemma SampleNormalized(upper: string, mixed: string, lower: string)
    requires upper == "123@ABC.COM" && mixed == "123@abc.COM" && lower == "123@abc.com"
    ensures Normalize(upper) == Normalize(lower) && Normalize(mixed) == Normalize(lower)
  {
    LowerPointwise(upper);
    LowerPointwise(mixed);
    LowerPointwise(lower);
    assert forall k | 0 <= k < |lower| :: LowerChar(upper[k]) == lower[k] && LowerChar(mixed[k]) == lower[k];
    assert Lower(upper) == Lower(lower);
    assert Lower(mixed) == Lower(lower);
    NormalizeIgnoresCase(upper, lower);
    NormalizeIgnoresCase(mixed, lower);
  }

  /** The names and passwords the examples use are not blank. */
  lemma SampleFields()
    ensures !Blank("Heather") && !Blank("McLeod") && !Blank("Smith")
    ensures !Blank("password") && !Blank("qwerty") && !Blank("he")
  {
    assert !IsSpace("Heather"[0]) && !IsSpace("McLeod"[0]) && !IsSpace("Smith"[0]);
    assert !IsSpace("password"[0]) && !IsSpace("qwerty"[0]) && !IsSpace("he"[0]);
  }

  function Heather(email: string, password: string): Candidate {
    Candidate(Some("Heather"), Some("McLeod"), Some(email), Some(password), Some(password))
  }

  /** Heather McLeod's record with `"123@abc.com"` and `"password"` passes
      every rule on an empty store. */
  lemma SampleAdmissible(email: string, password: string)
    requires email == "123@abc.com" && password == "password"
    ensures Validate(Heather(email, password), []) == []
  {
    SampleEmails(email, "123@ABC.COM", "abc@123.com", "boop@beep.com");
    SampleFields();
  }

  /** Two spaces on either side: `"  123@abc.com  "` normalises like
      `"123@abc.com"`. */
  lemma SamplePadded(pad: string, email: string)
    requires pad == "  " && email == "123@abc.com"
    ensures Normalize(pad + email + pad) == Normalize(email)
  {
    assert pad[0] == ' ' && pad[1] == ' ';
    NormalizeIgnoresPadding(pad, email, pad);
  }

  /** "should have a password and password_confirmation": a `nil` password
      is reported blank and nothing is saved. */
  method PasswordRequired(kdf: Kdf, salt: Salt) returns (errors: seq<Violation>, stored: seq<Account>)
    ensures PasswordBlank in errors
    ensures stored == []
  {
    var store := new AccountStore(kdf);
    var user := Candidate(Some("Heather"), Some("McLeod"), Some("123@abc.com"), None, None);
    ViolationRules(user, []);
    var r := store.Save(user, salt);
    errors := if r.Err? then r.error else [];
    stored := store.accounts;
  }

  /** "should not save without a valid first_name": a `nil` first name. */
  method FirstNameRequired(kdf: Kdf, salt: Salt) returns (errors: seq<Violation>, stored: seq<Account>)
    ensures FirstNameBlank in errors
    ensures stored == []
  {
    var store := new AccountStore(kdf);
    var user := Candidate(None, Some("McLeod"), Some("123@abc.com"), Some("password"), Some("password"));
    ViolationRules(user, []);
    var r := store.Save(user, salt);
    errors := if r.Err? then r.error else [];
    stored := store.accounts;
  }

  /** "should not save without a valid last_name": an empty last name. */
  method LastNameRequired(kdf: Kdf, salt: Salt) returns (errors: seq<Violation>, stored: seq<Account>)
    ensures LastNameBlank in errors
    ensures stored == []
  {
    var store := new AccountStore(kdf);
    var user := Candidate(Some("Heather"), Some(""), Some("123@abc.com"), Some("password"), Some("password"));
    ViolationRules(user, []);
    var r := store.Save(user, salt);
    errors := if r.Err? then r.error else [];
    stored := store.accounts;
  }

  /** "should not save if the passwords don't match". */
  method ConfirmationMustMatch(kdf: Kdf, salt: Salt) returns (errors: seq<Violation>, stored: seq<Account>)
    ensures PasswordConfirmationMismatch in errors
    ensures stored == []
  {
    var store := new AccountStore(kdf);
    var user := Candidate(Some("Heather"), Some("McLeod"), Some("123@abc.com"), Some("password"), Some("string"));
    ViolationRules(user, []);
    var r := store.Save(user, salt);
    errors := if r.Err? then r.error else [];
    stored := store.accounts;
  }

  /** "should not save without a valid email": `"abc"` has no `@`. */
  method EmailMustBeWellFormed(kdf: Kdf, salt: Salt) returns (errors: seq<Violation>, stored: seq<Account>)
    ensures EmailInvalid in errors
    ensures stored == []
  {
    var store := new AccountStore(kdf);
    var user := Heather("abc", "password");
    NoAtMalformed("abc");
    ViolationRules(user, []);
    var r := store.Save(user, salt);
    errors := if r.Err? then r.error else [];
    stored := store.accounts;
  }

  /** Saves `user1` and then `user2` on a fresh store. */
  method SaveTwice(kdf: Kdf, salt1: Salt, salt2: Salt, user1: Candidate, user2: Candidate)
    returns (errors: seq<Violation>, stored: seq<Account>)
    requires Validate(user1, []) == []
    requires user2.email.Some? && WellFormedEmail(user2.email.value)
    requires Normalize(user2.email.value) == Normalize(user1.email.value)
    ensures EmailTaken in errors
    ensures stored == [NewAccount(kdf, user1, salt1)] && StoreInvariant(stored)
  {
    var store := new AccountStore(kdf);
    var r1 := store.Save(user1, salt1);
    TakenAfterSave([], kdf, user1, salt1, user2);
    var r2 := store.Save(user2, salt2);
    errors := if r2.Err? then r2.error else [];
    stored := store.accounts;
  }

  /** "should not save if the email is not unique": `"123@abc.com"` is
      saved, then `"123@ABC.COM"` is refused as taken, and the store still
      holds exactly the one account, under that normalised email. */
  method EmailMustBeUnique(kdf: Kdf, salt1: Salt, salt2: Salt)
    returns (errors: seq<Violation>, stored: seq<Account>)
    ensures EmailTaken in errors
    ensures |stored| == 1 && stored[0].email == "123@abc.com"
    ensures StoreInvariant(stored)
  {
    var lower, upper, mixed, password := "123@abc.com", "123@ABC.COM", "123@abc.COM", "password";
    var user1 := Heather(lower, password);
    var user2 := Heather(upper, password);
    SampleAdmissible(lower, password);
    SampleEmails(lower, upper, "abc@123.com", "boop@beep.com");
    SampleNormalized(upper, mixed, lower);
    errors, stored := SaveTwice(kdf, salt1, salt2, user1, user2);
  }

  /** "should not save if the password length is less than three
      characters": `"he"` with a matching confirmation is too short. */
  method PasswordMinimumLength(kdf: Kdf, salt: Salt) returns (errors: seq<Violation>, stored: seq<Account>)
    ensures PasswordTooShort in errors
    ensures stored == []
  {
    var store := new AccountStore(kdf);
    var user := Heather("abc@123.com", "he");
    SampleFields();
    ViolationRules(user, []);
    var r := store.Save(user, salt);
    errors := if r.Err? then r.error else [];
    stored := store.accounts;
  }

  /** Saves one account and authenticates with `email` and `password`. */
  method SaveThenAuthenticate(kdf: Kdf, salt: Salt, user: Candidate, email: string, password: string)
    returns (saved: Option<Account>, found: Option<Account>)
    requires Validate(user, []) == []
    requires user.password == Some(password) && Normalize(email) == Normalize(user.email.value)
    ensures saved.Some? && saved.value.email == user.email.value && found == saved
  {
    var store := new AccountStore(kdf);
    var r := store.Save(user, salt);
    saved := Some(r.value);
    AuthenticateAfterSave([], kdf, user, salt, email);
    found := Authenticate(store.accounts, kdf, email, password);
  }

  /** ".authenticate_with_credentials" with the exact saved email and
      password returns the saved account. */
  method AuthenticateExact(kdf: Kdf, salt: Salt) returns (saved: Option<Account>, found: Option<Account>)
    ensures saved.Some? && saved.value.email == "boop@beep.com" && found == saved
  {
    var user := Candidate(Some("Heather"), Some("Smith"), Some("boop@beep.com"), Some("qwerty"), Some("qwerty"));
    SampleEmails("123@abc.com", "123@ABC.COM", "abc@123.com", "boop@beep.com");
    SampleFields();
    assert Validate(user, []) == [];
    saved, found := SaveThenAuthenticate(kdf, salt, user, "boop@beep.com", "qwerty");
  }

  /** "should authenticate despite whitespace": the saved email with two
      spaces on either side, `"  123@abc.com  "`. */
  method AuthenticateDespiteWhitespace(kdf: Kdf, salt: Salt) returns (saved: Option<Account>, found: Option<Account>)
    ensures saved.Some? && saved.value.email == "123@abc.com" && found == saved
  {
    var email, pad, password := "123@abc.com", "  ", "password";
    var user := Heather(email, password);
    SampleAdmissible(email, password);
    SamplePadded(pad, email);
    saved, found := SaveThenAuthenticate(kdf, salt, user, pad + email + pad, password);
  }

  /** "should authenticate despite wrong case": `"123@abc.COM"`. */
  method AuthenticateDespiteCase(kdf: Kdf, salt: Salt) returns (saved: Option<Account>, found: Option<Account>)
    ensures saved.Some? && saved.value.email == "123@abc.com" && found == saved
  {
    var lower, upper, mixed, password := "123@abc.com", "123@ABC.COM", "123@abc.COM", "password";
    var user := Heather(lower, password);
    SampleAdmissible(lower, password);
    SampleNormalized(upper, mixed, lower);
    saved, found := SaveThenAuthenticate(kdf, salt, user, mixed, password);
  }
}
