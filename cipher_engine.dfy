/**
 * Key derivation and the cipher calls around the envelope. SHA-256 (section
 * 6.2 of FIPS 180-4) and AES-256-CBC (FIPS 197 with the CBC mode of section
 * 6.2 of NIST SP 800-38A, PKCS#7 padding as in section 6.3 of RFC 5652) are
 * foreign library calls: they are the function fields of a `Crypto` value,
 * and what the vault relies on of them is the hypothesis `Sound`.
 */
module CipherEngine {
  import opened Base
  import opened Envelope

  /** Block length of AES, in bytes: the unit of CBC padding. */
  const BlockLength: nat := 16

  /** Key length of AES-256, in bytes. */
  const KeyLength: nat := 32

  /**
   * What a decipher stream produces: the bytes it pushed to its destination
   * and whether its final step accepted the padding.
   */
  datatype Deciphered = Deciphered(output: Bytes, ok: bool)

  /**
   * The foreign primitives: `createHash('sha256').update(s).digest()`, and
   * the whole-input AES-256-CBC encryption and decryption done by the
   * `createCipheriv` / `createDecipheriv` streams.
   */
  datatype Crypto = Crypto(
    sha256: string -> Bytes,
    encrypt: (Bytes, Iv, Bytes) -> Bytes,
    decrypt: (Bytes, Iv, Bytes) -> Deciphered)

  /** Length of a PKCS#7-padded CBC ciphertext of an `n`-byte plaintext. */
  function PaddedLength(n: nat): (r: nat)
  {
    BlockLength * (n / BlockLength + 1)
  }

  /**
   * What the vault assumes of the primitives: a digest is 32 bytes, and under
   * a 32-byte key decryption inverts encryption and the ciphertext is the
   * padded length of the plaintext.
   */
  ghost predicate Sound(c: Crypto)
  {
    && (forall secret :: |c.sha256(secret)| == KeyLength)
    && (forall key, iv, m :: |key| == KeyLength ==> c.decrypt(key, iv, c.encrypt(key, iv, m)) == Deciphered(m, true))
    && (forall key, iv, m :: |key| == KeyLength ==> |c.encrypt(key, iv, m)| == PaddedLength(|m|))
  }

  /** PKCS#7 padding: 1 to 16 bytes, each holding the number of bytes added. */
  function Pad(m: Bytes): (r: Bytes)
    ensures |r| == PaddedLength(|m|)
    ensures r[..|m|] == m
  {
    var p := BlockLength - |m| % BlockLength;
    m + seq(p, _ => p)
  }

  /** Removal of PKCS#7 padding; fails on a misaligned input or a bad pad. */
  function Unpad(c: Bytes): (r: Deciphered)
  {
    if |c| == 0 || |c| % BlockLength != 0 then Deciphered([], false)
    else
      var p := c[|c| - 1];
      if 1 <= p <= BlockLength && forall i :: |c| - p <= i < |c| ==> c[i] == p
      then Deciphered(c[..|c| - p], true)
      else Deciphered([], false)
  }

  /**
   * The padding layer alone, with the block transform taken as the identity
   * and a constant digest: a set of primitives meeting `Sound`, so the
   * hypothesis is not contradictory.
   */
  function PaddingOnly(): (c: Crypto)
  {
    Crypto(
      _ => seq(KeyLength, _ => 0),
      (_, _, m) => Pad(m),
      (_, _, c) => Unpad(c))
  }

  /**
   * Removing PKCS#7 padding undoes adding it. `Pad`, `Unpad` and
   * `PaddingOnly` exist only to show that `Sound` can be met; the vault
   * itself never calls them.
   */
  lemma UnpadPad(m: Bytes)
    ensures Unpad(Pad(m)) == Deciphered(m, true)
  {
  }

  /** The hypothesis `Sound` can be met. */
  lemma SoundIsConsistent()
    ensures Sound(PaddingOnly())
  {
  }

  /** `digest.slice(0, 32)`: the first 32 bytes of the digest, fewer if it is shorter. */
  function DeriveKey(digest: Bytes): (key: Bytes)
    ensures |key| == Min(KeyLength, |digest|)
    ensures forall i :: 0 <= i < |key| ==> key[i] == digest[i]
  {
    digest[..Min(KeyLength, |digest|)]
  }

  /**
   * The key every handler derives from `process.env.ENCRYPTION_KEY`: none
   * when the variable is unset or empty (`!encryptionKey`), otherwise the
   * truncated SHA-256 digest of the secret.
   */
  function ConfiguredKey(c: Crypto, secret: Option<string>): (key: Option<Bytes>)
    ensures key.None? <==> secret.None? || secret.value == ""
    ensures key.Some? ==> |key.value| == Min(KeyLength, |c.sha256(secret.value)|)
    ensures key.Some? ==> key.value == c.sha256(secret.value)[..|key.value|]
  {
    if secret.None? || secret.value == "" then None
    else Some(DeriveKey(c.sha256(secret.value)))
  }

  /**
   * A configured secret yields a key of exactly 32 bytes, the whole digest:
   * the truncation is a no-op for SHA-256.
   */
  lemma ConfiguredKeyLength(c: Crypto, secret: string)
    requires Sound(c) && secret != ""
    ensures ConfiguredKey(c, Some(secret)).Some?
    ensures ConfiguredKey(c, Some(secret)).value == c.sha256(secret)
    ensures |ConfiguredKey(c, Some(secret)).value| == KeyLength
  {
  }

  /** `createCipheriv('aes-256-cbc', key, iv)` throws unless the key is 32 bytes. */
  predicate CipherAccepts(key: Bytes)
  {
    |key| == KeyLength
  }

  /** The envelope an upload handler writes for `data`: IV, then ciphertext. */
  function Seal(c: Crypto, key: Bytes, iv: Iv, data: Bytes): (e: Bytes)
  {
    Frame(iv, c.encrypt(key, iv, data))
  }

  /** An envelope starts with its IV and is one IV longer than the padded plaintext. */
  lemma SealLayout(c: Crypto, key: Bytes, iv: Iv, data: Bytes)
    requires Sound(c) && CipherAccepts(key)
    ensures |Seal(c, key, iv, data)| == IvLength + PaddedLength(|data|)
    ensures Seal(c, key, iv, data)[..IvLength] == iv
    ensures |Seal(c, key, iv, data)| % BlockLength == 0 && |Seal(c, key, iv, data)| >= IvLength + BlockLength
  {
  }

  /**
   * What a reader of a stored file does with it: split the IV from the
   * ciphertext and decrypt. `None` when `createDecipheriv` throws (a file
   * shorter than one IV, or a key that is not 32 bytes).
   */
  function Open(c: Crypto, key: Bytes, data: Bytes): (r: Option<Deciphered>)
    ensures r.None? <==> |data| < IvLength || !CipherAccepts(key)
    ensures r.Some? ==> r.value == c.decrypt(key, data[..IvLength], data[IvLength..])
  {
    match Unframe(data)
    case None => None
    case Some((iv, ciphertext)) =>
      if CipherAccepts(key) then Some(c.decrypt(key, iv, ciphertext)) else None
  }

  /** Opening an envelope sealed under the same key gives back exactly the sealed bytes. */
  lemma OpenSeal(c: Crypto, key: Bytes, iv: Iv, data: Bytes)
    requires Sound(c) && CipherAccepts(key)
    ensures Open(c, key, Seal(c, key, iv, data)) == Some(Deciphered(data, true))
  {
  }
}
