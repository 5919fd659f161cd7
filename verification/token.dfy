/**
 The token scheme: a salted digest of the plain token. The digest function
 (`calculate_token`) is not part of this model; it is a parameter that the
 model assumes nothing about beyond being a function.
 */
module Token {
  import opened Prelude

  /** A deterministic digest of `(token, salt)`; its text is what the claims table stores. */
  type Hasher = (string, seq<byte>) -> string

  /** The 16 random bytes whose hex text becomes a plain token (`secrets.token_hex(16)`). */
  type TokenBytes = b: seq<byte> | |b| == 16 witness seq(16, i => 0)

  /** The 32 random bytes of a claim's salt (`os.urandom(32)`). */
  type Salt = b: seq<byte> | |b| == 32 witness seq(32, i => 0)

  /** A presented token is valid for a stored claim when it hashes, with the claim's salt, to the stored hash. */
  predicate Verify(calculateToken: Hasher, presented: string, storedHash: string, storedSalt: seq<byte>) {
    calculateToken(presented, storedSalt) == storedHash
  }
}
