/**
  A stand-in for the bcrypt password hash used by the account store.

  The application relies on one property of its hash library only: a password
  verifies against the hash of a password exactly when the two are equal.
  Salting means the same password yields a different hash under a different
  salt, so the salt is an input here (the library draws it at random).  The
  digest below is not bcrypt; it is a salted, injective encoding chosen so that
  the property the application relies on can be proved (lemma `VerifyHash`)
  rather than assumed.  The rest of the model reasons about hashes only through
  `VerifyHash`.
 */
module Bcrypt {

  /** The salt the library draws for each hashing call. */
  type Salt = nat

  /** A stored credential: the salt it was made with and the salted digest. */
  datatype PasswordHash = PasswordHash(salt: Salt, digest: seq<int>)

  /** Salted digest of a password: one code per character, shifted by the salt. */
  function Digest(password: string, salt: Salt): (d: seq<int>)
    ensures |d| == |password|
  {
    if password == [] then []
    else [password[0] as int + salt] + Digest(password[1..], salt)
  }

  /** `bcrypt.hash(password)` with the salt made explicit. */
  function Hash(password: string, salt: Salt): PasswordHash
  {
    PasswordHash(salt, Digest(password, salt))
  }

  /** `bcrypt.verify(password, h)`: re-digest with the stored salt and compare. */
  predicate Verify(password: string, h: PasswordHash)
  {
    Digest(password, h.salt) == h.digest
  }

  /** Under one salt, different passwords have different digests. */
  lemma {:induction false} DigestInjective(p: string, q: string, salt: Salt)
    requires Digest(p, salt) == Digest(q, salt)
    ensures p == q
  {
    if p != [] {
      assert Digest(p, salt)[0] == Digest(q, salt)[0];
      assert p[0] == q[0];
      assert Digest(p, salt)[1..] == Digest(p[1..], salt);
      assert Digest(q, salt)[1..] == Digest(q[1..], salt);
      DigestInjective(p[1..], q[1..], salt);
      assert p == [p[0]] + p[1..];
      assert q == [q[0]] + q[1..];
    }
  }

  /** The one property of the hash the application depends on. */
  lemma {:induction false} VerifyHash(p: string, q: string, salt: Salt)
    ensures Verify(p, Hash(q, salt)) <==> p == q
  {
    if Verify(p, Hash(q, salt)) {
      DigestInjective(p, q, salt);
    }
  }
}
