/**
 * The vault server's state and its request handlers: the encrypted and the
 * decrypted directory, each a map from file name to contents, updated in
 * place by the upload, download, purge and decrypt-all routes. The secret
 * (`process.env.ENCRYPTION_KEY`, read by every handler) and the crypto
 * primitives are fixed when the vault is created.
 */
module VaultStore {
  import opened Base
  import opened Envelope
  import opened CipherEngine
  import opened FileNames
  import opened VaultSpec

  /** How a handler ends; the comments give the HTTP answer. */
  datatype Outcome =
    | Done             // 200
    | NoFileUploaded   // 400 'No file uploaded' / 'No files uploaded'
    | KeyNotFound      // 500 'Encryption key not found'
    | FileNotFound     // 404 'File not found'
    | CipherRejected   // createCipheriv/createDecipheriv threw: Express answers 500
    | BadDecrypt       // the decipher rejected the padding: no answer is sent

  class Vault {
    var encrypted: Directory
    var decrypted: Directory
    const secret: Option<string>
    const crypto: Crypto

    /** The server at start-up: both directories exist, possibly with files in them. */
    constructor (secret: Option<string>, crypto: Crypto, encrypted: Directory, decrypted: Directory)
      ensures this.secret == secret && this.crypto == crypto
      ensures this.encrypted == encrypted && this.decrypted == decrypted
    {
      this.secret := secret;
      this.crypto := crypto;
      this.encrypted := encrypted;
      this.decrypted := decrypted;
    }

    /**
     * POST /upload. multer first stores the raw bytes under the sanitised
     * name; the handler then, given a configured secret, overwrites them with
     * the envelope `iv ++ ciphertext`. Without a secret the raw bytes stay.
     */
    method Upload(file: Option<UploadedFile>, iv: Iv) returns (o: Outcome)
      modifies this`encrypted
      ensures file.None? ==> o == NoFileUploaded && encrypted == old(encrypted)
      ensures file.Some? ==>
        var name := StoredName(file.value);
        var key := ConfiguredKey(crypto, secret);
        && (key.None? ==> o == KeyNotFound && encrypted == old(encrypted)[name := file.value.data])
        && (key.Some? && !CipherAccepts(key.value) ==>
              o == CipherRejected && encrypted == old(encrypted)[name := file.value.data])
        && (key.Some? && CipherAccepts(key.value) ==>
              o == Done && encrypted == old(encrypted)[name := Seal(crypto, key.value, iv, file.value.data)])
    {
      if file.None? {
        return NoFileUploaded;
      }
      var name := StoredName(file.value);
      encrypted := encrypted[name := file.value.data];
      var key := ConfiguredKey(crypto, secret);
      if key.None? {
        return KeyNotFound;
      }
      var uploadedData := encrypted[name];
      if !CipherAccepts(key.value) {
        return CipherRejected;
      }
      var ciphertext := crypto.encrypt(key.value, iv, uploadedData);
      encrypted := encrypted[name := Frame(iv, ciphertext)];
      o := Done;
    }

    /**
     * POST /upload-multiple. multer stores every file under its sanitised
     * name; the handler then writes, file by file, the envelope of the bytes
     * stored under that name, each with its own IV (`ivs[i]` for `files[i]`).
     * The handler reads the files as multer left them: its reads are
     * synchronous, its writes go through streams that open afterwards.
     */
    method UploadMultiple(files: seq<UploadedFile>, ivs: seq<Iv>) returns (o: Outcome)
      requires |ivs| == |files|
      modifies this`encrypted
      ensures files == [] ==> o == NoFileUploaded && encrypted == old(encrypted)
      ensures files != [] ==>
        var raw := Received(old(encrypted), files);
        var key := ConfiguredKey(crypto, secret);
        && (key.None? ==> o == KeyNotFound && encrypted == raw)
        && (key.Some? && !CipherAccepts(key.value) ==> o == CipherRejected && encrypted == raw)
        && (key.Some? && CipherAccepts(key.value) ==>
              o == Done && encrypted == SealEach(crypto, key.value, raw, raw, files, ivs))
    {
      if files == [] {
        return NoFileUploaded;
      }
      encrypted := Received(encrypted, files);
      var key := ConfiguredKey(crypto, secret);
      if key.None? {
        return KeyNotFound;
      }
      if !CipherAccepts(key.value) {
        return CipherRejected;
      }
      var raw := encrypted;
      var i := 0;
      while i < |files|
        invariant 0 <= i <= |files|
        invariant Names(files[i..]) <= raw.Keys
        invariant SealEach(crypto, key.value, raw, encrypted, files[i..], ivs[i..])
               == SealEach(crypto, key.value, raw, raw, files, ivs)
      {
        assert files[i..][1..] == files[i + 1..] && ivs[i..][1..] == ivs[i + 1..];
        var name := StoredName(files[i]);
        var uploadedData := raw[name];
        var ciphertext := crypto.encrypt(key.value, ivs[i], uploadedData);
        assert SealEach(crypto, key.value, raw, encrypted, files[i..], ivs[i..])
            == SealEach(crypto, key.value, raw, encrypted[name := Frame(ivs[i], ciphertext)], files[i + 1..], ivs[i + 1..]);
        encrypted := encrypted[name := Frame(ivs[i], ciphertext)];
        i := i + 1;
      }
      o := Done;
    }

    /**
     * GET /download/:filename. A name absent from the encrypted directory is
     * not found; otherwise, given a configured secret, the stored file is
     * split at byte 16 and its decryption written to the decrypted directory
     * under the same name.
     */
    method Download(name: string) returns (o: Outcome)
      modifies this`decrypted
      ensures name !in encrypted ==> o == FileNotFound && decrypted == old(decrypted)
      ensures name in encrypted ==>
        var key := ConfiguredKey(crypto, secret);
        && (key.None? ==> o == KeyNotFound && decrypted == old(decrypted))
        && (key.Some? && Open(crypto, key.value, encrypted[name]).None? ==>
              o == CipherRejected && decrypted == old(decrypted))
        && (key.Some? && Open(crypto, key.value, encrypted[name]).Some? ==>
              var d := Open(crypto, key.value, encrypted[name]).value;
              && decrypted == old(decrypted)[name := d.output]
              && o == if d.ok then Done else BadDecrypt)
    {
      if name !in encrypted {
        return FileNotFound;
      }
      var key := ConfiguredKey(crypto, secret);
      if key.None? {
        return KeyNotFound;
      }
      var encryptedData := encrypted[name];
      var iv := IvPart(encryptedData);
      if |iv| != IvLength || !CipherAccepts(key.value) {
        return CipherRejected;
      }
      var d := crypto.decrypt(key.value, iv, BodyPart(encryptedData));
      decrypted := decrypted[name := d.output];
      o := if d.ok then Done else BadDecrypt;
    }

    /** DELETE /delete: every file the listing of the decrypted directory names is removed. */
    method Purge(listing: seq<string>)
      requires Lists(listing, decrypted)
      modifies this`decrypted
      ensures decrypted == map[]
      ensures encrypted == old(encrypted)
    {
      var i := 0;
      while i < |listing|
        invariant 0 <= i <= |listing|
        invariant forall n :: n in decrypted <==> n in old(decrypted) && n !in listing[..i]
      {
        decrypted := decrypted - {listing[i]};
        i := i + 1;
      }
      assert listing[..i] == listing;
      assert decrypted.Keys == {};
    }

    /**
     * POST /decrypt-all. Given a configured secret, every file of the
     * listing of the encrypted directory, in listing order, is decrypted into
     * the decrypted directory under its name with the first ".enc" removed.
     * A file shorter than one IV makes `createDecipheriv` throw, which ends
     * the loop there.
     */
    method DecryptAll(order: seq<string>) returns (o: Outcome)
      requires Lists(order, encrypted)
      modifies this`decrypted
      ensures ConfiguredKey(crypto, secret).None? ==> o == KeyNotFound && decrypted == old(decrypted)
      ensures ConfiguredKey(crypto, secret).Some? ==>
        var r := DecryptEach(crypto, ConfiguredKey(crypto, secret).value, encrypted, old(decrypted), order);
        decrypted == r.0 && o == if r.1 then CipherRejected else Done
    {
      var key := ConfiguredKey(crypto, secret);
      if key.None? {
        return KeyNotFound;
      }
      var i := 0;
      while i < |order|
        invariant 0 <= i <= |order|
        invariant DecryptEach(crypto, key.value, encrypted, decrypted, order[i..])
               == DecryptEach(crypto, key.value, encrypted, old(decrypted), order)
      {
        assert order[i..][1..] == order[i + 1..];
        var encryptedData := encrypted[order[i]];
        var iv := IvPart(encryptedData);
        if |iv| != IvLength || !CipherAccepts(key.value) {
          return CipherRejected;
        }
        var d := crypto.decrypt(key.value, iv, BodyPart(encryptedData));
        decrypted := decrypted[DecryptedName(order[i]) := d.output];
        i := i + 1;
      }
      o := Done;
    }
  }

  /**
   * A client of the handlers: with a configured secret, uploading a file and
   * then downloading it by its storage name answers 200 and leaves exactly
   * the uploaded bytes in the decrypted directory under that name.
   */
  method UploadThenDownload(v: Vault, file: UploadedFile, iv: Iv) returns (o: Outcome)
    requires Sound(v.crypto) && v.secret.Some? && v.secret.value != ""
    modifies v
    ensures o == Done
    ensures v.encrypted == old(v.encrypted)[StoredName(file) := Seal(v.crypto, v.crypto.sha256(v.secret.value), iv, file.data)]
    ensures v.decrypted == old(v.decrypted)[StoredName(file) := file.data]
  {
    ConfiguredKeyLength(v.crypto, v.secret.value);
    var up := v.Upload(Some(file), iv);
    OpenSeal(v.crypto, ConfiguredKey(v.crypto, v.secret).value, iv, file.data);
    o := v.Download(StoredName(file));
  }
}
