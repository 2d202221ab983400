/** The password hash the handler stores: a bcrypt string
    `$2b$<cost>$<salt><digest>`, where the cost is two decimal digits, the
    salt is 22 characters and the digest 31. The salt is random and the
    digest is a one-way function of the password and the salt; both come in
    as parameters, so nothing here depends on how they are computed. */
module Bcrypt {

  /** The work factor the handler passes to the hash. */
  const SaltRounds: nat := 10

  const Version: string := "$2b$"
  const SaltLength: nat := 22
  const DigestLength: nat := 31

  type Salt = s: string | |s| == 22 witness "......................"
  type Digest = s: string | |s| == 31 witness "..............................."

  /** The cost rendered as bcrypt writes it: two decimal digits. */
  function CostField(rounds: nat): (r: string)
    requires rounds < 100
    ensures |r| == 2
    ensures forall i :: 0 <= i < 2 ==> '0' <= r[i] <= '9'
    ensures (r[0] as int - '0' as int) * 10 + (r[1] as int - '0' as int) == rounds
  {
    [('0' as int + rounds / 10) as char, ('0' as int + rounds % 10) as char]
  }

  /** Everything in front of the salt; seven characters. */
  function Prefix(): (p: string)
    ensures |p| == 7 && p[..4] == Version && p[6] == '$'
    ensures p[4..6] == CostField(SaltRounds)
    ensures p == "$2b$10$"
  {
    Version + CostField(SaltRounds) + "$"
  }

  /** The stored hash of `password` with `salt`. */
  function Hash(digest: (string, Salt) -> Digest, password: string, salt: Salt): (h: string)
    ensures |h| == 7 + SaltLength + DigestLength
    ensures h[..7] == Prefix()
    ensures h[7..7 + SaltLength] == salt
    ensures h[7 + SaltLength..] == digest(password, salt)
  {
    Prefix() + salt + digest(password, salt)
  }

  /** The library's comparison against a hash with this route's version and
      cost: read the salt back out of a stored hash and hash the candidate
      password again with it. */
  predicate Matches(digest: (string, Salt) -> Digest, password: string, stored: string): (b: bool)
    ensures b ==> |stored| == 60 && stored[..7] == Prefix()
    ensures b ==> stored[7 + SaltLength..] == digest(password, stored[7..7 + SaltLength])
  {
    |stored| == 7 + SaltLength + DigestLength &&
    stored[..7] == Prefix() &&
    Hash(digest, password, stored[7..7 + SaltLength]) == stored
  }

  /** A password checks out against its own stored hash. */
  lemma HashThenMatches(digest: (string, Salt) -> Digest, password: string, salt: Salt)
    ensures Matches(digest, password, Hash(digest, password, salt))
  {
  }

  /** A stored hash is never its own plaintext, unless that plaintext is
      itself a string of bcrypt's shape under the same prefix. */
  lemma HashIsNotPlaintext(digest: (string, Salt) -> Digest, password: string, salt: Salt)
    requires |password| != 7 + SaltLength + DigestLength || password[..7] != Prefix()
    ensures Hash(digest, password, salt) != password
  {
  }
}
