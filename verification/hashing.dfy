/** The password hash, reduced to what the handler relies on.

    The handler hashes every delete password with bcrypt and later checks a
    candidate with `compareSync`.  The model idealises that pair: its digest
    verifies against the secret it was made from and against no other
    secret.  bcrypt itself reads only the first 72 bytes of a secret, salts
    every digest and has a cost factor; none of that is modelled, so `Hash`
    is a deterministic, unsalted, injective function. */
module Hashing {

  /** A stored digest.  Nothing outside this module inspects its field: the
      rest of the model only ever uses `Hash` and `Matches`. */
  datatype Digest = Digest(sealed: string)

  /** bcrypt's check of a candidate secret against a stored digest. */
  predicate Matches(secret: string, d: Digest)
  {
    d.sealed == secret
  }

  /** bcrypt hashing of a secret, whether done synchronously or not. */
  function Hash(secret: string): (d: Digest)
    ensures Matches(secret, d)
    ensures forall other :: Matches(other, d) ==> other == secret
  {
    Digest(secret)
  }
}
