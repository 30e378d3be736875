/**
 * PHP's `password_hash` / `password_verify` pair with `PASSWORD_DEFAULT`,
 * which is bcrypt.
 *
 * Cryptography is not modelled: a hash records the salt it was made with and
 * the part of the password bcrypt reads, namely its first 72 UTF-8 bytes.
 * Verification compares a candidate's first 72 bytes against that part, so
 * two passwords that agree on their first 72 bytes verify against each
 * other's hashes. The salt stands for the randomness that `password_hash`
 * draws, so it is a parameter.
 */
module Password {

  /** The UTF-8 encoding of one character (a Unicode scalar value), as byte values. */
  function Utf8Char(c: char): (r: seq<int>)
    ensures 1 <= |r| <= 4
    ensures (c as int < 0x80) <==> |r| == 1
    ensures c as int < 0x80 ==> r == [c as int]
  {
    var n := c as int;
    if n < 0x80 then [n]
    else if n < 0x800 then [0xC0 + n / 0x40, 0x80 + n % 0x40]
    else if n < 0x1_0000 then [0xE0 + n / 0x1000, 0x80 + (n / 0x40) % 0x40, 0x80 + n % 0x40]
    else [0xF0 + n / 0x4_0000, 0x80 + (n / 0x1000) % 0x40, 0x80 + (n / 0x40) % 0x40, 0x80 + n % 0x40]
  }

  /** The UTF-8 encoding of a string: the bytes PHP hands to bcrypt. */
  function Utf8(s: string): (r: seq<int>)
    ensures |r| >= |s|
  {
    if s == [] then [] else Utf8Char(s[0]) + Utf8(s[1..])
  }

  /** bcrypt reads at most this many bytes of a password. */
  const BcryptLimit: nat := 72

  /** The bytes of a password that bcrypt reads: the first 72 of its encoding. */
  function Significant(password: string): (r: seq<int>)
    ensures |r| == if |Utf8(password)| <= BcryptLimit then |Utf8(password)| else BcryptLimit
    ensures r <= Utf8(password)
  {
    var b := Utf8(password);
    if |b| <= BcryptLimit then b else b[..BcryptLimit]
  }

  /** A stored password hash; its fields are a modelling device, never shown to a caller. */
  datatype PwHash = PwHash(salt: nat, key: seq<int>)

  /** `password_hash($password, PASSWORD_DEFAULT)` with the salt made explicit. */
  function Hash(password: string, salt: nat): PwHash {
    PwHash(salt, Significant(password))
  }

  /** `password_verify($password, $hash)`. */
  predicate Verify(password: string, h: PwHash) {
    Significant(password) == h.key
  }

  /** A hash verifies the password it was made from, whatever the salt. */
  lemma VerifyHash(password: string, salt: nat)
    ensures Verify(password, Hash(password, salt))
  {
  }

  /** A hash refuses every password that differs from its own within the bytes bcrypt reads. */
  lemma VerifyRejectsOthers(password: string, other: string, salt: nat)
    requires Significant(other) != Significant(password)
    ensures !Verify(other, Hash(password, salt))
  {
  }

  /** Passwords that agree on their first 72 bytes verify against each other's hashes. */
  lemma LongPasswordsCollide(password: string, other: string, salt: nat)
    requires |Utf8(password)| >= BcryptLimit && |Utf8(other)| >= BcryptLimit
    requires Utf8(password)[..BcryptLimit] == Utf8(other)[..BcryptLimit]
    ensures Verify(other, Hash(password, salt))
  {
  }

  /** An ASCII string encodes to one byte per character, each its code. */
  lemma {:induction false} AsciiUtf8(s: string)
    requires forall k :: 0 <= k < |s| ==> s[k] as int < 0x80
    ensures |Utf8(s)| == |s|
    ensures forall k :: 0 <= k < |s| ==> Utf8(s)[k] == s[k] as int
  {
    if s != [] {
      AsciiUtf8(s[1..]);
      var rest := Utf8(s[1..]);
      assert Utf8(s) == [s[0] as int] + rest;
      forall k | 0 < k < |s| ensures Utf8(s)[k] == s[k] as int {
        assert Utf8(s)[k] == rest[k - 1] && s[1..][k - 1] == s[k];
      }
    }
  }

  /** Distinct ASCII passwords of at most 72 characters never verify against each other. */
  lemma ShortAsciiPasswordsDistinct(password: string, other: string, salt: nat)
    requires forall k :: 0 <= k < |password| ==> password[k] as int < 0x80
    requires forall k :: 0 <= k < |other| ==> other[k] as int < 0x80
    requires |password| <= BcryptLimit && |other| <= BcryptLimit && password != other
    ensures !Verify(other, Hash(password, salt))
  {
    AsciiUtf8(password);
    AsciiUtf8(other);
    var a, b := Utf8(password), Utf8(other);
    if |password| == |other| {
      var k :| 0 <= k < |password| && password[k] != other[k];
      assert a[k] != b[k];
    } else {
      assert |a| != |b|;
    }
  }
}
