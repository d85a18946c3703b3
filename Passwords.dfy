/**
 * The password-hashing primitive behind `has_secure_password`, reduced to
 * its contract. A digest records the salt it was made with plus the
 * output of a one-way key-derivation function; verifying a plaintext
 * recomputes that output with the recorded salt and compares.
 * The key-derivation function is a parameter, so every property proved
 * here holds whatever function is plugged in.
 */
module Passwords {

  type Bytes = seq<bv8>

  /** The per-password random salt. */
  type Salt = Bytes

  /** A one-way key-derivation function (bcrypt, in the Rails application). */
  type Kdf = (Salt, string) -> Bytes

  /** The stored `password_digest`. */
  datatype Digest = Digest(salt: Salt, checksum: Bytes)

  /** Does `password` match the stored digest? */
  predicate Verify(kdf: Kdf, password: string, d: Digest) {
    kdf(d.salt, password) == d.checksum
  }

  /** Hashes `password` with `salt`; the digest verifies the password it
      was made from and keeps the salt. */
  function Hash(kdf: Kdf, salt: Salt, password: string): (d: Digest)
    ensures Verify(kdf, password, d)
    ensures d.salt == salt
  {
    Digest(salt, kdf(salt, password))
  }
}
