/**
 * hashPassword and verifyPassword (lib/utils/api.ts:13-22), a thin layer
 * over bcrypt with cost factor 10.
 *
 * A bcrypt string is "$2b$10$", then a 22-character salt, then the
 * checksum. bcrypt draws the salt at random; here it is a parameter the
 * caller supplies. The checksum is modelled as an injective function of
 * the password (the password itself), so the model keeps what the
 * handlers rely on: verification succeeds exactly for the password that
 * was hashed. It does not model one-wayness.
 */
module Crypto {
  import Validation

  /** bcrypt's version identifier and the cost factor 10 hashPassword passes. */
  const Prefix := "$2b$10$"
  const SaltLength := 22

  type Salt = s: string | |s| == SaltLength witness "abcdefghijklmnopqrstuv"

  /** The shape of every string hashPassword returns. */
  predicate IsDigest(h: string) {
    |h| >= |Prefix| + SaltLength && h[..|Prefix|] == Prefix
  }

  /** The salt bcrypt reads back out of a stored hash. */
  function SaltOf(h: string): Salt
    requires IsDigest(h)
  {
    h[|Prefix|..|Prefix| + SaltLength]
  }

  /** The checksum part of a stored hash. */
  function ChecksumOf(h: string): string
    requires IsDigest(h)
  {
    h[|Prefix| + SaltLength..]
  }

  /** hashPassword: a bcrypt string that carries its salt and the password's checksum. */
  function Hash(password: string, salt: Salt): (h: string)
    ensures IsDigest(h) && SaltOf(h) == salt && ChecksumOf(h) == password
  {
    var h := Prefix + salt + password;
    assert h[..|Prefix|] == Prefix;
    assert h[|Prefix|..|Prefix| + SaltLength] == salt;
    assert h[|Prefix| + SaltLength..] == password;
    h
  }

  /** verifyPassword: re-hash with the stored salt and compare. */
  predicate Verify(password: string, h: string): (ok: bool)
    ensures ok <==> IsDigest(h) && ChecksumOf(h) == password
  {
    IsDigest(h) && h == Hash(password, SaltOf(h))
  }

  /** A hash verifies against the password it was made from. */
  lemma VerifyHash(password: string, salt: Salt)
    ensures Verify(password, Hash(password, salt))
  {
  }

  /** A hash verifies against no other password. */
  lemma VerifyOnlyOriginal(password: string, original: string, salt: Salt)
    requires Verify(password, Hash(original, salt))
    ensures password == original
  {
    assert ChecksumOf(Hash(password, salt)) == password;
  }

  /**
   * A stored hash is never a valid password: it begins with `$`, which
   * the password pattern's class `[a-zA-Z\d_]` excludes.
   */
  lemma DigestIsNotAPassword(h: string)
    requires IsDigest(h)
    ensures !Validation.PasswordRegex(h) && !Validation.IsValidPassword(h)
  {
    assert h[0] == h[..|Prefix|][0] == '$';
    Validation.PasswordRejectsForeignChar(h, 0);
  }
}
