/**
 * The user table: an in-memory sequence of persisted accounts that
 * `save` appends to, only after every validation passes.
 */
module Store {
  import opened Wrappers
  import opened Text
  import opened Passwords
  import opened Accounts
  import opened Validation

  /** What every persisted account satisfies: both names present and its
      email well formed. */
  predicate ValidAccount(a: Account) {
    !Blank(a.firstName) && !Blank(a.lastName) && WellFormedEmail(a.email)
  }

  /** The store invariant: every account passed validation and no two
      accounts share a normalised email. */
  predicate StoreInvariant(accounts: seq<Account>) {
    UniqueEmails(accounts) && forall k | 0 <= k < |accounts| :: ValidAccount(accounts[k])
  }

  /** The record persisted for an admissible candidate: its names and
      email as given and a digest that verifies its password. */
  function NewAccount(kdf: Kdf, c: Candidate, salt: Salt): (a: Account)
    requires c.firstName.Some? && c.lastName.Some? && c.email.Some? && c.password.Some?
    ensures a.firstName == c.firstName.value && a.lastName == c.lastName.value
    ensures a.email == c.email.value
    ensures Verify(kdf, c.password.value, a.digest)
  {
    Account(c.firstName.value, c.lastName.value, c.email.value, Hash(kdf, salt, c.password.value))
  }

  /** Saving an admissible candidate keeps the store invariant. */
  lemma SavePreservesInvariant(accounts: seq<Account>, kdf: Kdf, c: Candidate, salt: Salt)
    requires StoreInvariant(accounts)
    requires Validate(c, accounts) == []
    ensures StoreInvariant(accounts + [NewAccount(kdf, c, salt)])
  {
    var a := NewAccount(kdf, c, salt);
    var after := accounts + [a];
    forall i, j | 0 <= i < j < |after| ensures Normalize(after[i].email) != Normalize(after[j].email) {
      if j == |accounts| {
        assert !HasEmail(accounts[i], c.email.value);
      }
    }
  }

  /** After a successful save, a second candidate with a well-formed email
      that normalises like the saved one (`"123@ABC.COM"` after
      `"123@abc.com"`) is refused as taken. */
  lemma TakenAfterSave(accounts: seq<Account>, kdf: Kdf, c: Candidate, salt: Salt, c2: Candidate)
    requires Validate(c, accounts) == []
    requires c2.email.Some? && WellFormedEmail(c2.email.value)
    requires Normalize(c2.email.value) == Normalize(c.email.value)
    ensures EmailTaken in Validate(c2, accounts + [NewAccount(kdf, c, salt)])
  {
    var after := accounts + [NewAccount(kdf, c, salt)];
    assert HasEmail(after[|accounts|], c2.email.value);
    ViolationRules(c2, after);
  }

  /** After a successful save, the saved email, padded with whitespace or
      differently cased, together with the saved password, authenticates to
      the account just saved. */
  lemma AuthenticateAfterSave(accounts: seq<Account>, kdf: Kdf, c: Candidate, salt: Salt, email: string)
    requires StoreInvariant(accounts)
    requires Validate(c, accounts) == []
    requires Normalize(email) == Normalize(c.email.value)
    ensures Authenticate(accounts + [NewAccount(kdf, c, salt)], kdf, email, c.password.value)
            == Some(NewAccount(kdf, c, salt))
  {
    var after := accounts + [NewAccount(kdf, c, salt)];
    SavePreservesInvariant(accounts, kdf, c, salt);
    AuthenticateStored(after, kdf, |accounts|, email, c.password.value);
  }

  /** The `users` table with the key-derivation function that
      `has_secure_password` hashes with. */
  class AccountStore {
    const kdf: Kdf
    var accounts: seq<Account>

    ghost predicate Valid()
      reads this
    {
      StoreInvariant(accounts)
    }

    /** An empty table. */
    constructor (kdf: Kdf)
      ensures Valid()
      ensures this.kdf == kdf && accounts == []
    {
      this.kdf := kdf;
      accounts := [];
    }

    /** `user.save`: validates `c` against the stored accounts; when
        nothing is violated, hashes the password with `salt`, appends the
        new account and returns it; otherwise returns the violations and
        leaves the store unchanged. */
    method Save(c: Candidate, salt: Salt) returns (r: Result<Account, seq<Violation>>)
      requires Valid()
      modifies this
      ensures Valid()
      ensures Validate(c, old(accounts)) == [] ==>
                r == Ok(NewAccount(kdf, c, salt)) && accounts == old(accounts) + [r.value]
      ensures Validate(c, old(accounts)) != [] ==>
                r == Err(Validate(c, old(accounts))) && accounts == old(accounts)
    {
      var errors := Validate(c, accounts);
      if errors == [] {
        var a := NewAccount(kdf, c, salt);
        SavePreservesInvariant(accounts, kdf, c, salt);
        accounts := accounts + [a];
        r := Ok(a);
      } else {
        r := Err(errors);
      }
    }
  }
}
