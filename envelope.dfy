/**
 * The at-rest format of an encrypted file: the 16-byte initialisation vector
 * followed by the AES-256-CBC ciphertext.
 */
module Envelope {
  import opened Base

  /** Length of an AES block, and so of a CBC initialisation vector. */
  const IvLength: nat := 16

  /** An initialisation vector as `crypto.randomBytes(16)` returns it. */
  type Iv = s: Bytes | |s| == 16 witness [0, 0, 0, 0, 0, 0, 0, 0, 0, 0, 0, 0, 0, 0, 0, 0]

  /** The stored file: the upload handlers write the IV first, then the ciphertext. */
  function Frame(iv: Iv, ciphertext: Bytes): (e: Bytes)
    ensures |e| == IvLength + |ciphertext|
    ensures e[..IvLength] == iv && e[IvLength..] == ciphertext
  {
    iv + ciphertext
  }

  /** `data.slice(0, 16)`: a Buffer slice stops at the end of a short buffer. */
  function IvPart(data: Bytes): (r: Bytes)
    ensures |r| == Min(IvLength, |data|)
    ensures r == data[..|r|]
  {
    data[..Min(IvLength, |data|)]
  }

  /** `data.slice(16)`: empty for a buffer of at most 16 bytes. */
  function BodyPart(data: Bytes): (r: Bytes)
    ensures |r| == |data| - Min(IvLength, |data|)
    ensures IvPart(data) + r == data
  {
    data[Min(IvLength, |data|)..]
  }

  /**
   * What the readers of the encrypted directory recover from a stored file:
   * the IV slice and the ciphertext slice, provided the IV slice is a whole
   * IV (node's `createDecipheriv` throws on any other IV length, so a file
   * shorter than 16 bytes never reaches the cipher).
   */
  function Unframe(data: Bytes): (r: Option<(Iv, Bytes)>)
    ensures r.Some? <==> |data| >= IvLength
    ensures r.Some? ==> Frame(r.value.0, r.value.1) == data
  {
    var iv := IvPart(data);
    if |iv| == IvLength then Some((iv, BodyPart(data))) else None
  }

  /** Reading back a stored file gives exactly the IV and the ciphertext written. */
  lemma UnframeFrame(iv: Iv, ciphertext: Bytes)
    ensures Unframe(Frame(iv, ciphertext)) == Some((iv, ciphertext))
  {
  }
}
