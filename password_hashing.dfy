/**
 * `hashPassword`: the SHA-256 digest of the salt followed by the password. The digest
 * function belongs to an external library; it is the parameter `sha256` here, about
 * which nothing is assumed except where a lemma says so.
 */
module PasswordHashing {

  /** The salt comes first, then the password. */
  function HashPassword(sha256: string -> string, password: string, salt: string): string
  {
    sha256(salt + password)
  }

  /** `sha256` maps different texts to different digests. */
  ghost predicate CollisionFree(sha256: string -> string)
  {
    forall x, y :: sha256(x) == sha256(y) ==> x == y
  }

  /** Prepending the same salt keeps different passwords different. */
  lemma SaltedTextsDiffer(salt: string, p1: string, p2: string)
    requires salt + p1 == salt + p2
    ensures p1 == p2
  {
    assert p1 == (salt + p1)[|salt|..];
    assert p2 == (salt + p2)[|salt|..];
  }

  /**
   * Under one salt, equal passwords always give equal digests, and with a collision-free
   * digest only equal passwords do.
   */
  lemma HashPasswordMatches(sha256: string -> string, salt: string, p1: string, p2: string)
    ensures p1 == p2 ==> HashPassword(sha256, p1, salt) == HashPassword(sha256, p2, salt)
    ensures CollisionFree(sha256) ==>
      (HashPassword(sha256, p1, salt) == HashPassword(sha256, p2, salt) <==> p1 == p2)
  {
    if CollisionFree(sha256) && HashPassword(sha256, p1, salt) == HashPassword(sha256, p2, salt) {
      SaltedTextsDiffer(salt, p1, p2);
    }
  }

  /** The salt is hashed too: with a collision-free digest, two different salts give one password different digests. */
  lemma HashPasswordSaltFirst(sha256: string -> string, password: string, s1: string, s2: string)
    requires s1 != s2
    requires CollisionFree(sha256)
    ensures HashPassword(sha256, password, s1) != HashPassword(sha256, password, s2)
  {
    assert (s1 + password)[..|s1|] == s1;
    assert (s2 + password)[..|s2|] == s2;
  }

}
