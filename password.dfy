/** `hashPassword` and `comparePasswords`: the stored form `<hex key>.<hex salt>` and its
    verification. The key-derivation function (scrypt) is a parameter: any deterministic
    function from (password, salt text) to 64 bytes. */
module Password {
  import opened Wrappers
  import opened Text

  type byte = b: int | 0 <= b < 256

  const KeyLength: nat := 64
  const SaltLength: nat := 16

  /** A deterministic key-derivation function that always yields `KeyLength` bytes. */
  type KeyDerivation = f: (string, string) -> seq<byte> | forall p, s :: |f(p, s)| == KeyLength
    witness (p: string, s: string) => seq(64, _ => 0 as byte)

  /** `Buffer.toString("hex")`: two lower-case hex digits per byte. */
  function HexEncode(bytes: seq<byte>): (s: string)
    ensures |s| == 2 * |bytes|
    ensures forall i :: 0 <= i < |s| ==> IsHexDigit(s[i]) && s[i] != '.'
  {
    if bytes == [] then []
    else [HexChar(bytes[0] / 16), HexChar(bytes[0] % 16)] + HexEncode(bytes[1..])
  }

  /** `Buffer.from(s, "hex")`: decodes pairs of hex digits and stops at the first pair
      that is not two hex digits (an odd last character is dropped). */
  function HexDecode(s: string): (bytes: seq<byte>)
    ensures |bytes| <= |s| / 2
  {
    if |s| >= 2 && IsHexDigit(s[0]) && IsHexDigit(s[1])
    then [HexValue(s[0]) * 16 + HexValue(s[1])] + HexDecode(s[2..])
    else []
  }

  /** Hex-decoding the hex encoding of bytes gives the bytes back. */
  lemma {:induction false} HexRoundTrip(bytes: seq<byte>)
    ensures HexDecode(HexEncode(bytes)) == bytes
  {
    if bytes != [] {
      var s := HexEncode(bytes);
      assert s[2..] == HexEncode(bytes[1..]);
      HexRoundTrip(bytes[1..]);
    }
  }

  /** `hashPassword(password)` with the random salt given as input: the hex of the
      64-byte key derived from the password and the salt's hex text, a dot, then the
      salt's hex text. */
  function HashPassword(kdf: KeyDerivation, password: string, salt: seq<byte>): (stored: string)
    requires |salt| == SaltLength
    ensures |stored| == 2 * KeyLength + 1 + 2 * SaltLength
    ensures stored[2 * KeyLength] == '.'
    ensures stored[..2 * KeyLength] == HexEncode(kdf(password, HexEncode(salt)))
    ensures stored[2 * KeyLength + 1..] == HexEncode(salt)
  {
    HexEncode(kdf(password, HexEncode(salt))) + "." + HexEncode(salt)
  }

  /** How `comparePasswords` fails instead of answering: a stored form without a dot
      leaves the salt undefined and scrypt throws; a key part that does not decode to
      64 bytes makes `timingSafeEqual` throw on the length difference. */
  datatype CompareError = MissingSalt | LengthMismatch

  /** `comparePasswords(supplied, stored)`. */
  function ComparePasswords(kdf: KeyDerivation, supplied: string, stored: string): (r: Result<bool, CompareError>)
    ensures r.Err? && r.error == MissingSalt <==> '.' !in stored
    ensures '.' in stored && |HexDecode(Split(stored, '.')[0])| != KeyLength ==> r == Err(LengthMismatch)
    ensures '.' in stored && |HexDecode(Split(stored, '.')[0])| == KeyLength ==>
              r == Ok(HexDecode(Split(stored, '.')[0]) == kdf(supplied, Split(stored, '.')[1]))
    ensures r == Ok(true) ==>
              '.' in stored && HexDecode(Split(stored, '.')[0]) == kdf(supplied, Split(stored, '.')[1])
  {
    var parts := Split(stored, '.');
    if |parts| < 2 then Err(MissingSalt)
    else
      var hashed := HexDecode(parts[0]);
      var derived := kdf(supplied, parts[1]);
      if |hashed| != |derived| then Err(LengthMismatch)
      else Ok(hashed == derived)
  }

  /** Splitting the stored form on "." gives exactly the key hex and the salt hex,
      and the key hex decodes to the derived key. */
  lemma StoredFormSplits(kdf: KeyDerivation, password: string, salt: seq<byte>)
    requires |salt| == SaltLength
    ensures Split(HashPassword(kdf, password, salt), '.')
              == [HexEncode(kdf(password, HexEncode(salt))), HexEncode(salt)]
    ensures HexDecode(Split(HashPassword(kdf, password, salt), '.')[0]) == kdf(password, HexEncode(salt))
  {
    var key := HexEncode(kdf(password, HexEncode(salt)));
    SplitPair(key, HexEncode(salt), '.');
    HexRoundTrip(kdf(password, HexEncode(salt)));
  }

  /** Verification of a stored form compares the derived keys under the stored salt:
      it never fails, and it accepts `supplied` exactly when the KDF gives the same key
      for `supplied` as for the hashed password. */
  lemma CompareAgainstHash(kdf: KeyDerivation, supplied: string, password: string, salt: seq<byte>)
    requires |salt| == SaltLength
    ensures ComparePasswords(kdf, supplied, HashPassword(kdf, password, salt))
              == Ok(kdf(supplied, HexEncode(salt)) == kdf(password, HexEncode(salt)))
  {
    StoredFormSplits(kdf, password, salt);
  }

  /** `comparePasswords(p, hashPassword(p))` holds, since the stored salt is reused. */
  lemma HashThenCompare(kdf: KeyDerivation, password: string, salt: seq<byte>)
    requires |salt| == SaltLength
    ensures ComparePasswords(kdf, password, HashPassword(kdf, password, salt)) == Ok(true)
  {
    CompareAgainstHash(kdf, password, password, salt);
  }
}
