/**
 * The password hasher, as a symbolic one-way function. A digest records the
 * cost factor and the salt it was made with; the model never reads the
 * password back out of a digest except through `Compare`.
 */
module Bcrypt {

  /** The random salt bcrypt draws for each hash; randomness is a parameter here. */
  type Salt = nat

  /** The cost factor passed to every hash call. */
  const SaltRounds: nat := 10

  datatype Digest = Digest(rounds: nat, salt: Salt, key: string)

  /** Checks a password against a stored digest using the cost and salt the
      digest carries, so digests of any cost stay checkable. */
  predicate Compare(password: string, d: Digest) {
    d.key == password
  }

  /** Hashes a password with the fixed cost factor and the given salt. */
  function Hash(password: string, salt: Salt): (d: Digest)
    ensures Compare(password, d)
    ensures d.rounds == SaltRounds && d.salt == salt
  {
    Digest(SaltRounds, salt, password)
  }

  /** Hashing is salted: the same password hashed with two salts gives two digests. */
  lemma SaltedHashesDiffer(password: string, salt1: Salt, salt2: Salt)
    requires salt1 != salt2
    ensures Hash(password, salt1) != Hash(password, salt2)
  {
  }
}
