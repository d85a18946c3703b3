# User accounts: validation, saving and credential authentication

A Dafny model of the `User` model of the jungle-rails shop, as its RSpec
examples in `spec/models/user_spec.rb` pin it down:

- **Validation** (`Validation.Validate`): a candidate record
  `(first_name, last_name, email, password, password_confirmation)`,
  each attribute possibly `nil`, is checked against the stored accounts and
  yields the list of violated rules — first name blank, last name blank,
  email malformed, email already taken (compared after normalisation, so
  case-insensitively), password blank, password shorter than 3, and
  confirmation mismatch.
- **Saving** (`Store.AccountStore.Save`): the `users` table is a class
  holding the sequence of persisted accounts. `save` runs the validator,
  and only when nothing is violated hashes the password and appends the
  account; otherwise the table is unchanged and the violations are
  returned (Rails' `user.errors`). The store keeps the invariant that every
  account has non-blank first and last names and a well-formed email, and
  that no two accounts share a normalised email.
- **Authentication** (`Accounts.Authenticate`, Rails'
  `User.authenticate_with_credentials`): the given email is normalised
  (surrounding whitespace stripped, lower-cased), the stored account with
  that normalised email is looked up, and it is returned only if the
  password verifies against its digest.
- **The examples** (module `UserSpec`): each `it` block is a method that
  builds a fresh, empty store, saves the example's record(s) and returns
  what the example inspects; its postcondition is the example's
  expectation, proved for every key-derivation function and every salt.

Password hashing (`has_secure_password` / bcrypt) is reduced to a digest
that records its salt and the output of a key-derivation function; that
function is a parameter of the store, so the only fact the proofs use
about it is that a digest verifies the password it was made from
(`Passwords.Hash`).

Modelling decisions, where the examples leave the behaviour open:

- `app/models/user.rb`, the model the examples exercise, is not part of
  this model; the rules are those the examples fix, plus the modelling
  decisions listed below.
- "Blank" is Rails' `blank?`: `nil`, empty, or only whitespace. A blank
  password is reported as blank only; the length rule applies to non-blank
  passwords.
- The email format is `^[^\s@]+@[^\s@]+\.[^\s@]+$`, written as the
  predicate `Validation.WellFormedEmail`. The examples only fix `"abc"` as
  malformed and `"123@abc.com"`, `"123@ABC.COM"`, `"abc@123.com"` and
  `"boop@beep.com"` as well formed.
- Uniqueness is checked only for a well-formed email (a malformed email is
  refused anyway).
- The confirmation rule compares password and confirmation as given,
  `nil` included.
- Violations are listed in the order the rules are declared here.
- The title of the first `.authenticate_with_credentials` example speaks
  of invalid credentials, but its body checks that valid credentials
  return the saved record; the model follows the body.

## Model

| member | source | states |
|---|---|---|
| `Validation.WellFormedEmail` | spec/models/user_spec.rb:34-39 | the email format: exactly one `@`, not first, no whitespace anywhere, and a `.` in the part after `@` with characters on both sides; `NoAtMalformed` shows `"abc"` fails it and `SampleEmails` shows the accepted emails pass it |
| `Validation.Validate` | spec/models/user_spec.rb:4-60 | the violations of a candidate against the stored accounts: no rule reported twice, never both blank and too short, never both malformed and taken, and empty exactly when every attribute passes its rule (`Admissible`) |
| `Validation.ViolationRules` | spec/models/user_spec.rb:6-59 | for each of the seven rules, both ways: its violation is reported exactly when its condition holds (blank names, malformed email, well-formed email already stored under the same normalised form, blank password, non-blank password shorter than 3, password differing from its confirmation) |
| `Validation.BlankRules` | spec/models/user_spec.rb:6-25 | whatever the other attributes, a `nil` or empty first or last name is reported blank, a `nil` password is reported blank, and a password of 1 or 2 characters not starting with whitespace is reported too short |
| `Validation.NoAtMalformed` | spec/models/user_spec.rb:34-39 | an email without `@` is never well formed |
| `Passwords.Verify` | spec/models/user_spec.rb:63-69 | a password verifies against a digest when the key-derivation function, applied to the digest's salt and that password, gives the digest's checksum; `Hash` proves every digest verifies the password it was made from |
| `Passwords.Hash` | spec/models/user_spec.rb:63-69 | the digest made from a password with a salt verifies that password and records the salt |
| `Store.StoreInvariant` | spec/models/user_spec.rb:41-52 | every stored account has non-blank names and a well-formed email, and no two share a normalised email; `SavePreservesInvariant` and `AccountStore.Save` prove saving keeps it |
| `Store.NewAccount` | spec/models/user_spec.rb:43-45 | the persisted record keeps the names and email as given and a digest that verifies the password |
| `Store.AccountStore.constructor` | spec/models/user_spec.rb:43-45 | the clean test table each example saves into: a new table is empty and satisfies the store invariant |
| `Store.AccountStore.Save` | spec/models/user_spec.rb:43-51 | keeps the store invariant; with no violations it appends exactly the new account and returns it, otherwise it returns the violations and leaves the accounts unchanged |
| `Store.SavePreservesInvariant` | spec/models/user_spec.rb:41-52 | appending an admissible candidate keeps every account valid and at most one account per normalised email |
| `Store.TakenAfterSave` | spec/models/user_spec.rb:41-52 | once a candidate is saved, any candidate with a well-formed email of the same normalised form is refused as taken |
| `Store.AuthenticateAfterSave` | spec/models/user_spec.rb:63-85 | once a candidate is saved, any email normalising like its email, with its password, authenticates to exactly the account saved |
| `Accounts.Normalize` | spec/models/user_spec.rb:72-85 | the form an email is compared in: stripped, then lower-cased; what stripping keeps is given by `Text.StripKeeps`; `NormalizeSpec`, `NormalizeIdempotent`, `NormalizeIgnoresPadding` and `NormalizeIgnoresCase` establish what it removes and ignores |
| `Accounts.NormalizeSpec` | spec/models/user_spec.rb:72-85 | a normalised email has no surrounding whitespace and no upper-case letter |
| `Accounts.NormalizeIdempotent` | spec/models/user_spec.rb:72-85 | normalising a normalised email changes nothing |
| `Accounts.NormalizeIgnoresPadding` | spec/models/user_spec.rb:72-77 | whitespace before and after an email does not change its normalised form |
| `Accounts.NormalizeIgnoresCase` | spec/models/user_spec.rb:80-85 | two emails that agree after lower-casing have the same normalised form |
| `Accounts.Lookup` | spec/models/user_spec.rb:63-88 | a found account is stored and has the normalised email asked for; nothing is found exactly when no stored account has it |
| `Accounts.LookupFirst` | spec/models/user_spec.rb:63-88 | when the `j`-th stored account is the first with the email asked for, lookup returns exactly that account, whatever follows it |
| `Accounts.LookupFindsStored` | spec/models/user_spec.rb:63-88 | under the store invariant, looking up any email normalising like a stored account's returns that very account |
| `Accounts.Authenticate` | spec/models/user_spec.rb:63-88 | a returned account is stored, has the normalised email asked for, and its digest verifies the password |
| `Accounts.AuthenticateStored` | spec/models/user_spec.rb:63-85 | under the store invariant, the email (up to normalisation) and the password of a stored account authenticate to that account |
| `Text.Strip` | spec/models/user_spec.rb:72-77 | Ruby's `strip`: drops NUL and ASCII whitespace at both ends; `TrimLeftSpec`, `TrimRightSpec` and `StripKeeps` establish what it keeps, and `StripSpec`, `StripPadded`, `StripIdempotent` and `StripLower` what it removes and ignores |
| `Text.TrimLeftSpec` | spec/models/user_spec.rb:72-77 | the left trim keeps a suffix, drops only NUL and whitespace, and what it keeps does not start with either |
| `Text.TrimRightSpec` | spec/models/user_spec.rb:72-77 | the right trim keeps a prefix, drops only NUL and whitespace, and what it keeps does not end with either |
| `Text.StripKeeps` | spec/models/user_spec.rb:72-77 | what stripping keeps is a slice of the input between a prefix and a suffix made only of NUL and whitespace |
| `Text.Lower` | spec/models/user_spec.rb:80-85 | Ruby's `downcase` on ASCII: keeps the length and maps each character to its lower-case form (`LowerPointwise`), so no upper-case letter is left and lower-casing twice is lower-casing once (`LowerIdempotent`) |
| `Text.StripSpec` | spec/models/user_spec.rb:72-77 | the stripped string has no NUL or whitespace at either end, and is empty exactly when the input is only NUL and whitespace (so whenever it is blank) |
| `Text.StripPadded` | spec/models/user_spec.rb:72-77 | whitespace added on both sides of a string does not change what stripping keeps |
| `Text.StripLower` | spec/models/user_spec.rb:80-85 | stripping and lower-casing commute |
| `UserSpec.SampleEmails` | spec/models/user_spec.rb:41-66 | `"123@abc.com"`, `"123@ABC.COM"`, `"abc@123.com"` and `"boop@beep.com"`, the emails the examples expect to be accepted, are well formed |
| `UserSpec.SampleNormalized` | spec/models/user_spec.rb:47-51 | `"123@ABC.COM"` and `"123@abc.COM"` normalise like `"123@abc.com"` |
| `UserSpec.SampleAdmissible` | spec/models/user_spec.rb:43-45 | Heather McLeod's record with `"123@abc.com"` and `"password"` confirmed violates no rule on an empty store |
| `UserSpec.SamplePadded` | spec/models/user_spec.rb:72-77 | `"  123@abc.com  "` normalises like `"123@abc.com"` |
| `UserSpec.PasswordRequired` | spec/models/user_spec.rb:6-11 | saving a record with a `nil` password reports the password blank and stores nothing |
| `UserSpec.FirstNameRequired` | spec/models/user_spec.rb:13-18 | saving a record with a `nil` first name reports it blank and stores nothing |
| `UserSpec.LastNameRequired` | spec/models/user_spec.rb:20-25 | saving a record with an empty last name reports it blank and stores nothing |
| `UserSpec.ConfirmationMustMatch` | spec/models/user_spec.rb:27-32 | saving `"password"` confirmed by `"string"` reports a mismatch and stores nothing |
| `UserSpec.EmailMustBeWellFormed` | spec/models/user_spec.rb:34-39 | saving the email `"abc"` reports it invalid and stores nothing |
| `UserSpec.EmailMustBeUnique` | spec/models/user_spec.rb:41-52 | after `"123@abc.com"` is saved, saving `"123@ABC.COM"` reports the email taken, and the store holds exactly one account, the one saved first under `"123@abc.com"`, with the invariant intact |
| `UserSpec.SaveTwice` | spec/models/user_spec.rb:41-52 | on a fresh store, saving an admissible record and then one with a well-formed email of the same normalised form reports the email taken and leaves only the first account, with the invariant intact |
| `UserSpec.PasswordMinimumLength` | spec/models/user_spec.rb:54-59 | saving the password `"he"` with a matching confirmation reports it too short and stores nothing |
| `UserSpec.SaveThenAuthenticate` | spec/models/user_spec.rb:63-85 | on a fresh store, saving an admissible record and authenticating with an email normalising like its own and its password returns the saved account |
| `UserSpec.AuthenticateExact` | spec/models/user_spec.rb:63-69 | `("boop@beep.com", "qwerty")` returns the account just saved |
| `UserSpec.AuthenticateDespiteWhitespace` | spec/models/user_spec.rb:72-77 | `("  123@abc.com  ", "password")` returns the account just saved |
| `UserSpec.AuthenticateDespiteCase` | spec/models/user_spec.rb:80-85 | `("123@abc.COM", "password")` returns the account just saved |

## Left out

- Rails and ActiveRecord persistence, database collation and the test
  database setup: the table is an in-memory sequence of accounts.
- bcrypt and `has_secure_password` internals: hashing is a key-derivation
  function passed to the store, and the random salt is a parameter of
  `Save`.
- Human-readable error messages: violations are kinds, with the message
  each stands for noted beside it.
- The exact email regular expression of the `User` model is not visible;
  the model uses the pattern above and claims nothing beyond the sample
  emails the examples use.
- A separate "password confirmation can't be blank" violation: the
  expectation on line 10 only looks for the first string of its `||` chain.
- Wrong-password and unknown-email outcomes of authentication: the model
  returns `None` for them, but no example checks them.
- Races between concurrent saves on the uniqueness check: every operation
  is sequential.
- Update, delete, sessions, routing and views.
- Text.Lower: lower-cases ASCII letters only, where Ruby's `downcase` also
  folds other Unicode letters.
- Text.IsSpace: the six ASCII whitespace characters only, where Rails'
  `blank?` also accepts other Unicode spaces. `strip` uses its own set,
  `Text.IsStripped`, which adds NUL: a string of NULs is stripped to
  nothing but is not blank.
