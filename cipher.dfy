/**
 * The value cipher, `encryptValue` (utils.ts:66-73): every secret value is
 * encrypted with Blowfish in CBC mode (section 6.2 of NIST SP 800-38A) with
 * PKCS#5 padding (section 6.1.1 of RFC 8018), keyed by the raw encryption
 * key, with an IV made of the key's first eight UTF-8 bytes, and the
 * ciphertext is written as `![<base64>]`.
 */
module ValueCipher {
  import opened Wrappers
  import opened Encoding

  /**
   * The Blowfish library: `new Blowfish(key, CBC, PKCS5)`, then `setIv(iv)`,
   * then `encode(plaintext)`, as one function from the key, the IV and the
   * plaintext to the ciphertext bytes. Its code is not part of this model,
   * so every operation here takes it as a parameter.
   */
  type BlowfishCbc = (string, seq<byte>, string) -> seq<byte>

  /** The IV length: one Blowfish block, eight bytes. */
  const IvLength := 8

  /**
   * The IV derived from the key bytes (utils.ts:69-70): a zeroed 8-byte
   * buffer overwritten with at most the first eight key bytes.
   */
  function Iv(keyBytes: seq<byte>): (iv: seq<byte>)
    ensures |iv| == IvLength
    ensures forall i :: 0 <= i < IvLength ==> iv[i] == if i < |keyBytes| then keyBytes[i] else 0
  {
    if |keyBytes| >= IvLength then keyBytes[..IvLength]
    else keyBytes + seq(IvLength - |keyBytes|, _ => 0)
  }

  /**
   * `new Uint8Array(8)` then `iv.set(keyBytes.subarray(0, 8))`
   * (utils.ts:69-70), on an array filled in place.
   */
  method DeriveIv(keyBytes: seq<byte>) returns (iv: seq<byte>)
    ensures |iv| == IvLength
    ensures forall i :: 0 <= i < IvLength ==> iv[i] == if i < |keyBytes| then keyBytes[i] else 0
  {
    var buffer := new byte[IvLength](_ => 0);
    var source := if |keyBytes| < IvLength then keyBytes else keyBytes[..IvLength];
    var i := 0;
    while i < |source|
      invariant 0 <= i <= |source| <= IvLength
      invariant forall j :: 0 <= j < i ==> buffer[j] == keyBytes[j]
      invariant forall j :: i <= j < IvLength ==> buffer[j] == 0
    {
      buffer[i] := source[i];
      i := i + 1;
    }
    iv := buffer[..];
  }

  /** A long enough key fixes the IV by its first eight bytes: whatever follows them is ignored. */
  lemma IvIgnoresKeyTail(key: string, tail: string)
    requires |Utf8(key)| >= IvLength
    ensures Iv(Utf8(key + tail)) == Iv(Utf8(key))
  {
    Utf8Append(key, tail);
    assert Utf8(key + tail)[..IvLength] == Utf8(key)[..IvLength];
  }

  /** For a key of eight or more ASCII characters the IV is the codes of its first eight characters. */
  lemma IvOfAsciiKey(key: string)
    requires IsAscii(key) && |key| >= IvLength
    ensures forall i :: 0 <= i < IvLength ==> Iv(Utf8(key))[i] == key[i] as int
  {
    Utf8Ascii(key);
  }

  /** The token format: the base64 text between "![" and "]". */
  function Wrap(text: string): string
  {
    "![" + text + "]"
  }

  /** The token `encryptValue` returns for a secret value under a key (utils.ts:66-73). */
  function Token(blowfish: BlowfishCbc, secret: string, key: string): string
  {
    Wrap(Base64(blowfish(key, Iv(Utf8(key)), secret)))
  }

  /** What the downstream decryptor does first: unwrap "![...]" and decode the base64 inside. */
  function ParseToken(token: string): Option<seq<byte>>
  {
    if |token| >= 3 && token[..2] == "![" && token[|token| - 1] == ']'
    then Base64Decode(token[2..|token| - 1])
    else None
  }

  /**
   * A token carries the whole ciphertext: unwrapping and decoding it gives
   * back exactly the bytes Blowfish produced under the key and its IV.
   */
  lemma TokenRoundTrip(blowfish: BlowfishCbc, secret: string, key: string)
    ensures ParseToken(Token(blowfish, secret, key)) == Some(blowfish(key, Iv(Utf8(key)), secret))
  {
    var b := blowfish(key, Iv(Utf8(key)), secret);
    var text := Base64(b);
    var t := Wrap(text);
    assert t[..2] == "![" && t[|t| - 1] == ']';
    assert t[2..|t| - 1] == text;
    Base64RoundTrip(b);
  }

  /**
   * A token is "![", then four base64 digits or padding characters per
   * started group of three ciphertext bytes, then "]": nothing in between
   * can be read as the closing bracket.
   */
  lemma TokenShape(blowfish: BlowfishCbc, secret: string, key: string)
    ensures var t := Token(blowfish, secret, key);
      var n := |blowfish(key, Iv(Utf8(key)), secret)|;
      && |t| == 3 + 4 * ((n + 2) / 3)
      && t[..2] == "![" && t[|t| - 1] == ']'
      && forall i :: 2 <= i < |t| - 1 ==> IsDigit(t[i]) || t[i] == '='
  {
    var b := blowfish(key, Iv(Utf8(key)), secret);
    var t := Token(blowfish, secret, key);
    Base64Shape(b);
    forall i | 2 <= i < |t| - 1 ensures IsDigit(t[i]) || t[i] == '=' {
      assert t[i] == Base64(b)[i - 2];
    }
  }

  /**
   * `encryptValue(secret, key)` (utils.ts:66-73): derive the IV, encrypt,
   * base64-encode and wrap. The token depends on the plaintext and the key
   * alone, so equal inputs always give equal tokens.
   */
  method EncryptValue(blowfish: BlowfishCbc, secret: string, key: string) returns (token: string)
    ensures token == Token(blowfish, secret, key)
  {
    var keyBytes := Utf8(key);
    var iv := DeriveIv(keyBytes);
    assert iv == Iv(keyBytes);
    token := "![" + Base64(blowfish(key, iv, secret)) + "]";
  }
}
