# Encrypted file vault — a Dafny model

The system is a small Express server that keeps uploaded files encrypted at
rest. Each stored file is an envelope: a 16-byte IV followed by the
AES-256-CBC ciphertext. The key is the SHA-256 digest of a secret taken from
the environment variable `ENCRYPTION_KEY`. This project models the server's
core and proves what it guarantees:

- the whitespace sanitiser that turns a client's file name into a storage name;
- the IV-then-ciphertext envelope and how the readers split it at byte 16;
- the key derivation (SHA-256 digest, first 32 bytes);
- the two directories (encrypted and decrypted) and the handlers that change
  them: single and batch upload, download, purge, and decrypt-all with its
  `file.replace('.enc', '')` name mapping.

AES-256-CBC (FIPS 197 with the CBC mode of section 6.2 of NIST SP 800-38A and
the PKCS#7 padding of section 6.3 of RFC 5652) and SHA-256 (section 6.2 of
FIPS 180-4) are foreign calls. They are the function fields of a `Crypto`
value. What the vault relies on of them is the hypothesis `Sound`:
- a digest is 32 bytes;
- under a 32-byte key, decryption inverts encryption;
- a ciphertext has the padded length of its plaintext.

`SoundIsConsistent` shows that `Sound` can hold, using padding alone as a
stand-in cipher.

Modules, leaves first:

- `Base` (base.dfy): bytes and `Option`.
- `FileNames` (file_names.dfy): the sanitiser and the `.enc` name mapping.
- `Envelope` (envelope.dfy): framing and unframing.
- `CipherEngine` (cipher_engine.dfy): key derivation, sealing, opening, and the
  `Sound` hypothesis.
- `VaultSpec` (vault_spec.dfy): what multer stores, what the upload loop
  writes and what the decrypt-all loop writes, as functions of the directories.
- `VaultStore` (vault_store.dfy): the `Vault` class. Its two directory fields
  are maps updated in place by the handler methods. The upload and
  decrypt-all loops are proved to compute `SealEach` and `DecryptEach`; the
  purge loop is proved to empty the decrypted directory.

In three places the code behaves differently from what a reader might
expect; the model follows the code:
- Decrypt-all does not report a result per file. A stored file shorter than 16
  bytes makes `createDecipheriv` throw, and that ends the loop at that file.
  The files listed before it have already been written; the ones after it are
  not touched (`DecryptEachStopsAt`).
- Decrypt-all removes the first ".enc" wherever it occurs in the name, not
  only a trailing suffix. Upload never adds the suffix, so for any name
  containing ".enc", download and decrypt-all write to different names
  (`DecryptedNameAgreesWithDownload`, `EncCutFromMiddle`).
- With the secret missing, an upload leaves the raw uploaded bytes in the
  encrypted directory. Multer wrote them before the handler ran.

## Model

| member | source | states |
|---|---|---|
| FileNames.Sanitize | app.js:24 | the storage name has the original's length; every `\s` character becomes `_` and every other character is kept; the result contains no whitespace |
| FileNames.SanitizeIdempotent | app.js:24 | sanitising a storage name again changes nothing |
| FileNames.SanitizeFixedPoints | app.js:24 | a name is its own storage name if and only if it contains no whitespace |
| FileNames.RemoveFirst | app.js:213 | `replace` with a string pattern either returns the string unchanged or shortens it by exactly the pattern's length |
| FileNames.RemoveFirstAbsent | app.js:213 | a name without ".enc" maps to itself |
| FileNames.RemoveFirstAt | app.js:213 | only the first occurrence of the pattern is cut out; the text before and after it is kept |
| FileNames.DecryptedNameAgreesWithDownload | app.js:213 | decrypt-all writes under the stored name (as download does) if and only if ".enc" does not occur in it; otherwise the name is 4 characters shorter |
| FileNames.EncCutFromMiddle | app.js:213 | ".enc" is removed even in the middle of a name: "notes.encoding.txt" becomes "notesoding.txt" |
| Envelope.Frame | app.js:64-75 | the stored file is the IV followed by the ciphertext: its first 16 bytes are the IV, the rest is the ciphertext, and its length is 16 plus the ciphertext's |
| Envelope.IvPart | app.js:150 | `slice(0, 16)` gives the first 16 bytes, or the whole file if it is shorter |
| Envelope.BodyPart | app.js:163 | `slice(16)` gives everything after the IV part; the two parts together are the file |
| Envelope.Unframe | app.js:149-153 | a stored file yields an IV and a ciphertext if and only if it is at least 16 bytes long; they frame back to the file |
| Envelope.UnframeFrame | app.js:147-163 | splitting a written envelope at byte 16 gives back exactly the IV and ciphertext that were written |
| CipherEngine.Pad | app.js:59 | PKCS#7 padding gives the padded length and keeps the plaintext as a prefix |
| CipherEngine.UnpadPad | app.js:153 | removing PKCS#7 padding inverts adding it |
| CipherEngine.SoundIsConsistent | app.js:59 | the hypotheses made about the foreign cipher and hash can all hold together |
| CipherEngine.DeriveKey | app.js:47 | `digest().slice(0, 32)` keeps the digest's first 32 bytes, or all of it if it is shorter |
| CipherEngine.ConfiguredKey | app.js:39-47 | there is no key exactly when the secret is unset or empty; otherwise the key is a function of the secret alone, a prefix of its digest of length at most 32 |
| CipherEngine.ConfiguredKeyLength | app.js:47 | a configured secret always gives a 32-byte key, the whole SHA-256 digest |
| CipherEngine.SealLayout | app.js:56-75 | an envelope as `Seal` writes it (the IV, then the ciphertext) starts with its IV, is 16 bytes plus the padded plaintext length, and is block-aligned |
| CipherEngine.Open | app.js:147-163 | a stored file can be opened if and only if it holds a whole IV and the key is 32 bytes; opening deciphers bytes [16..) under IV bytes [0, 16) |
| CipherEngine.OpenSeal | app.js:105-163 | opening an envelope sealed under the same key gives back exactly the sealed bytes, with valid padding |
| VaultSpec.StoredName | app.js:23-25 | the name multer stores a file under contains no whitespace |
| VaultSpec.Received | app.js:18-28 | multer adds exactly the batch's storage names to the encrypted directory and changes no other entry |
| VaultSpec.ReceivedLast | app.js:18-28 | after multer, a storage name holds the bytes of the last file uploaded under it |
| VaultSpec.SealEach | app.js:50-77 | the upload loop writes only under the batch's storage names; every other entry is unchanged |
| VaultSpec.SealEachLast | app.js:50-77 | after the upload loop, a storage name holds the envelope of what multer stored there, with that file's IV |
| VaultSpec.UploadBatchRoundTrip | app.js:32-80 | after a batch upload with a configured secret, each storage name holds the envelope of the last file stored under it, and that envelope opens to exactly the file's bytes; other entries are unchanged |
| VaultSpec.DecryptEach | app.js:198-222 | the decrypt-all loop stops if and only if some listed file cannot be opened (shorter than an IV, or a key that is not 32 bytes); it writes only under the listed files' output names; when it does not stop it writes every one of them |
| VaultSpec.DecryptEachLast | app.js:201-221 | when the loop does not stop, a file's output name holds what the decipher emitted for it, unless a later file maps to the same name |
| VaultSpec.DecryptEachStopsAt | app.js:207-210 | at the first file shorter than an IV the loop ends: exactly the files before it have been written |
| VaultSpec.DecryptAllRecovers | app.js:185-225 | when every listed file is an envelope sealed under the derived key and output names do not collide, decrypt-all completes and each output name holds exactly the sealed bytes |
| VaultSpec.HelloWorldName | app.js:24 | an upload named "a b.txt" is stored as "a_b.txt" |
| VaultSpec.HelloWorldEnvelope | app.js:97-125 | "hello world" uploaded with the secret "test-key" is kept in a 32-byte envelope that opens to "hello world" |
| VaultStore.Vault.constructor | app.js:11-16 | the vault starts with the two directories' existing contents and the configured secret |
| VaultStore.Vault.Upload | app.js:83-126 | no file: 400 and nothing changes. Otherwise the sanitised name is written and nothing else: with no secret, 500 and the raw bytes stay; with a secret, the entry becomes `iv ++ Enc(key, iv, data)` |
| VaultStore.Vault.UploadMultiple | app.js:32-80 | no files: 400 and nothing changes. With no secret, 500 and multer's raw files stay. With a secret, the encrypted directory is the upload loop's result over multer's files |
| VaultStore.Vault.Download | app.js:129-173 | an absent name gives 404 and no change; a missing secret gives 500 and no change; a file under 16 bytes is refused with no change; otherwise the decryption is written under the same name, and the outcome tells a padding failure apart |
| VaultStore.Vault.Purge | app.js:174-182 | removing every listed entry leaves the decrypted directory empty and the encrypted directory unchanged |
| VaultStore.Vault.DecryptAll | app.js:185-225 | a missing secret gives 500 and no change; otherwise the decrypted directory is the decrypt-all loop's result over the listing, with a refusal if the loop stopped |
| VaultStore.UploadThenDownload | app.js:83-173 | uploading a file with a configured secret and downloading it by its storage name succeeds and writes exactly the uploaded bytes to the decrypted directory |

## Left out

- Express routing, multipart parsing, CORS, dotenv, `app.listen` and console logging are framework plumbing. Handlers are methods; HTTP statuses are `Outcome` values.
- The internals of AES-256-CBC and SHA-256 are foreign library calls. The model keeps them as the fields of `Crypto` and assumes only `Sound`. It cannot state the tamper behaviour (a flipped ciphertext bit either fails the padding check or silently yields other bytes), because the format has no authentication.
- `crypto.randomBytes(16)` is randomness: each IV is a method parameter. IV freshness across uploads is not modelled.
- Stream timing is asynchronous behaviour and is not modelled. Each write is treated as complete when its handler starts it. Also left out:
  - the batch upload answers before its writes finish;
  - within one batch, two files with the same storage name have write streams that race; the model writes them in batch order;
  - the process-level effect of a decipher stream's unhandled padding error. Download reports `BadDecrypt`. Decrypt-all writes the bytes emitted before the error and carries on.
- Concurrent requests on the same name are not modelled: the server has no locking.
- `path.join` traversal through names that contain `..` or `/`, and file-system errors, are not modelled. `fs.existsSync` is taken to mean "is a key of the directory".
- The routes `/fetch-encrypted` and `/fetch-decrypted` only list a directory; they are I/O. A listing appears only as the `Lists` predicate on the parameters of Purge and DecryptAll, which stand for the names in the order `readdirSync` returns them.
- The text encoding of the secret before hashing is part of the opaque hash. The multipart parser's decoding of the client's file name is not modelled either: the name is taken as given.
