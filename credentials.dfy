/**
 * Password storage as bcrypt does it: a fresh salt per password, and a
 * stored value that carries its own salt next to the digest, so that a
 * check can recompute the digest from the candidate password alone.
 * The key-derivation function itself is not modelled: it is a parameter
 * `kdf`, and the only thing assumed of it, where needed, is that one salt
 * never maps two passwords to the same digest.
 */
module Credentials {

  type Salt = seq<bv8>
  type Digest = seq<bv8>

  /** The one-way function: password and salt to digest. */
  type Kdf = (string, Salt) -> Digest

  /** The value kept in the `password` column. */
  datatype StoredHash = StoredHash(salt: Salt, digest: Digest)

  /** `hashpw(password, salt)`: digest the password under the given salt. */
  function HashPassword(kdf: Kdf, password: string, salt: Salt): (h: StoredHash)
    ensures h.salt == salt
  {
    StoredHash(salt, kdf(password, salt))
  }

  /** `checkpw(password, stored)`: rehash with the stored salt and compare. */
  predicate CheckPassword(kdf: Kdf, password: string, stored: StoredHash)
    ensures CheckPassword(kdf, password, stored) <==> HashPassword(kdf, password, stored.salt) == stored
  {
    kdf(password, stored.salt) == stored.digest
  }

  /** Under one salt no two passwords share a digest. */
  ghost predicate CollisionFree(kdf: Kdf) {
    forall p, p', s :: kdf(p, s) == kdf(p', s) ==> p == p'
  }

  /** A password always verifies against its own hash. */
  lemma CheckAcceptsOwnHash(kdf: Kdf, password: string, salt: Salt)
    ensures CheckPassword(kdf, password, HashPassword(kdf, password, salt))
  {
  }

  /** With a collision-free function, no other password verifies. */
  lemma CheckRejectsOtherPassword(kdf: Kdf, password: string, other: string, salt: Salt)
    requires CollisionFree(kdf)
    requires other != password
    ensures !CheckPassword(kdf, other, HashPassword(kdf, password, salt))
  {
  }
}
