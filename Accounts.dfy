/**
 * Persisted user accounts, the store's uniqueness invariant, lookup by
 * normalised email and `User.authenticate_with_credentials`.
 */
module Accounts {
  import opened Wrappers
  import opened Text
  import opened Passwords

  /** A persisted user; the plaintext password is never kept. */
  datatype Account = Account(firstName: string, lastName: string, email: string, digest: Digest)

  /** The normalised form of an email: surrounding whitespace stripped,
      then lower-cased. */
  function Normalize(email: string): string {
    Lower(Strip(email))
  }

  /** A normalised email has no NUL or whitespace at either end and no
      upper-case letter. */
  lemma NormalizeSpec(email: string)
    ensures Normalize(email) == [] || (!IsStripped(Normalize(email)[0]) && !IsStripped(Normalize(email)[|Normalize(email)| - 1]))
    ensures forall k | 0 <= k < |Normalize(email)| :: !IsUpper(Normalize(email)[k])
  {
    StripSpec(email);
    LowerPointwise(Strip(email));
  }

  /** Does the account belong to `email`, up to normalisation? */
  predicate HasEmail(a: Account, email: string) {
    Normalize(a.email) == Normalize(email)
  }

  /** The store invariant: at most one account per normalised email. */
  predicate UniqueEmails(accounts: seq<Account>) {
    forall i, j | 0 <= i < j < |accounts| :: Normalize(accounts[i].email) != Normalize(accounts[j].email)
  }

  /** Finds the first stored account whose normalised email equals the
      normalised `email`; `None` exactly when no stored account has it. */
  function Lookup(accounts: seq<Account>, email: string): (r: Option<Account>)
    ensures r.Some? ==> r.value in accounts && HasEmail(r.value, email)
    ensures r.None? <==> forall k | 0 <= k < |accounts| :: !HasEmail(accounts[k], email)
  {
    if accounts == [] then None
    else if HasEmail(accounts[0], email) then Some(accounts[0])
    else
      var r := Lookup(accounts[1..], email);
      assert forall k | 1 <= k < |accounts| :: accounts[k] == accounts[1..][k - 1];
      r
  }

  /** `User.authenticate_with_credentials`: look the account up by the
      normalised email and return it only if the password verifies against
      its digest. */
  function Authenticate(accounts: seq<Account>, kdf: Kdf, email: string, password: string): (r: Option<Account>)
    ensures r.Some? ==> r.value in accounts && HasEmail(r.value, email) && Verify(kdf, password, r.value.digest)
  {
    match Lookup(accounts, email)
    case Some(a) => if Verify(kdf, password, a.digest) then Some(a) else None
    case None => None
  }

  /** Normalising is idempotent. */
  lemma NormalizeIdempotent(email: string)
    ensures Normalize(Normalize(email)) == Normalize(email)
  {
    var s := Strip(email);
    StripLower(s);
    StripIdempotent(email);
    assert Strip(Lower(s)) == Lower(s);
    LowerIdempotent(s);
  }

  /** NUL or whitespace around the email does not matter: `"  123@abc.com  "`
      normalises like `"123@abc.com"`. */
  lemma NormalizeIgnoresPadding(pre: string, email: string, post: string)
    requires StripsAway(pre) && StripsAway(post)
    ensures Normalize(pre + email + post) == Normalize(email)
  {
    StripPadded(pre, email, post);
  }

  /** Letter case does not matter: emails that agree after lower-casing
      (`"123@abc.COM"`, `"123@abc.com"`) normalise alike. */
  lemma NormalizeIgnoresCase(e1: string, e2: string)
    requires Lower(e1) == Lower(e2)
    ensures Normalize(e1) == Normalize(e2)
  {
    StripLower(e1);
    StripLower(e2);
  }

  /** `Lookup` returns the first stored account with the email asked for,
      whatever the accounts after it. */
  lemma {:induction false} LookupFirst(accounts: seq<Account>, j: nat, email: string)
    requires j < |accounts| && HasEmail(accounts[j], email)
    requires forall i | 0 <= i < j :: !HasEmail(accounts[i], email)
    ensures Lookup(accounts, email) == Some(accounts[j])
  {
    if j > 0 {
      var rest := accounts[1..];
      assert !HasEmail(accounts[0], email);
      assert forall i | 0 <= i < j - 1 :: rest[i] == accounts[i + 1];
      LookupFirst(rest, j - 1, email);
    }
  }

  /** Dropping the first account keeps the emails unique. */
  lemma UniqueEmailsTail(accounts: seq<Account>)
    requires UniqueEmails(accounts) && accounts != []
    ensures UniqueEmails(accounts[1..])
  {
    var rest := accounts[1..];
    forall i, j | 0 <= i < j < |rest| ensures Normalize(rest[i].email) != Normalize(rest[j].email) {
      assert rest[i] == accounts[i + 1] && rest[j] == accounts[j + 1];
    }
  }

  /** Under the store invariant, lookup by any email that normalises like
      a stored account's returns that very account. */
  lemma {:induction false} LookupFindsStored(accounts: seq<Account>, k: nat, email: string)
    requires UniqueEmails(accounts)
    requires k < |accounts| && HasEmail(accounts[k], email)
    ensures Lookup(accounts, email) == Some(accounts[k])
  {
    if k > 0 {
      assert !HasEmail(accounts[0], email) by {
        assert Normalize(accounts[0].email) != Normalize(accounts[k].email);
      }
      var rest := accounts[1..];
      assert rest[k - 1] == accounts[k];
      UniqueEmailsTail(accounts);
      LookupFindsStored(rest, k - 1, email);
    }
  }

  /** Under the store invariant, the right credentials for a stored account
      authenticate to that same account, however the email is padded or
      cased, as long as it normalises like the stored one. */
  lemma AuthenticateStored(accounts: seq<Account>, kdf: Kdf, k: nat, email: string, password: string)
    requires UniqueEmails(accounts)
    requires k < |accounts| && HasEmail(accounts[k], email)
    requires Verify(kdf, password, accounts[k].digest)
    ensures Authenticate(accounts, kdf, email, password) == Some(accounts[k])
  {
    LookupFindsStored(accounts, k, email);
  }
}
