/**
 * The effect of the vault's handlers on its two directories, as functions of
 * the directories' contents: what multer stores for an upload, what the
 * upload loop writes, and what the decrypt-all loop writes. The `Vault`
 * class's methods are proved to compute these.
 */
module VaultSpec {
  import opened Base
  import opened Envelope
  import opened CipherEngine
  import opened FileNames

  /** A directory: file name to file contents. */
  type Directory = map<string, Bytes>

  /** A file of a multipart upload: the client's file name and its bytes. */
  datatype UploadedFile = UploadedFile(originalname: string, data: Bytes)

  /** The name multer stores an uploaded file under (`file.filename`). */
  function StoredName(f: UploadedFile): (r: string)
    ensures forall i :: 0 <= i < |r| ==> !IsJsWhitespace(r[i])
  {
    Sanitize(f.originalname)
  }

  /** The storage names of a batch of uploaded files. */
  function Names(files: seq<UploadedFile>): (r: set<string>)
  {
    set f | f in files :: StoredName(f)
  }

  /** No later file of the batch has the same storage name as file `i`, so file `i` is the one left on disk. */
  predicate LastWithName(files: seq<UploadedFile>, i: nat)
    requires i < |files|
  {
    forall j :: i < j < |files| ==> StoredName(files[j]) != StoredName(files[i])
  }

  /** `names` is a directory listing of `dir`: every entry once (`fs.readdirSync`). */
  ghost predicate Lists(names: seq<string>, dir: Directory)
  {
    && (forall i, j :: 0 <= i < j < |names| ==> names[i] != names[j])
    && (forall n :: n in dir <==> n in names)
  }

  lemma NamesCons(files: seq<UploadedFile>)
    requires files != []
    ensures Names(files) == {StoredName(files[0])} + Names(files[1..])
  {
    assert files == [files[0]] + files[1..];
  }

  /** A name no later file is stored under is not among the later files' names. */
  lemma LastNotInRest(files: seq<UploadedFile>)
    requires files != [] && LastWithName(files, 0)
    ensures StoredName(files[0]) !in Names(files[1..])
  {
    forall f | f in files[1..] ensures StoredName(f) != StoredName(files[0]) {
      var j :| 0 <= j < |files[1..]| && files[1..][j] == f;
      assert files[j + 1] == f;
    }
  }

  /**
   * multer's disk storage: every file of the request is written, in order,
   * under its storage name in the encrypted directory, replacing what was
   * there. No other entry changes.
   */
  function Received(dir: Directory, files: seq<UploadedFile>): (r: Directory)
    ensures r.Keys == dir.Keys + Names(files)
    ensures forall n :: n in dir && n !in Names(files) ==> r[n] == dir[n]
    decreases |files|
  {
    if files == [] then dir
    else
      NamesCons(files);
      Received(dir[StoredName(files[0]) := files[0].data], files[1..])
  }

  /** After multer has run, a file's storage name holds the bytes of the last file uploaded under it. */
  lemma {:induction false} ReceivedLast(dir: Directory, files: seq<UploadedFile>, i: nat)
    requires i < |files| && LastWithName(files, i)
    ensures StoredName(files[i]) in Received(dir, files)
    ensures Received(dir, files)[StoredName(files[i])] == files[i].data
    decreases |files|
  {
    var next := dir[StoredName(files[0]) := files[0].data];
    if i == 0 {
      LastNotInRest(files);
    } else {
      assert LastWithName(files[1..], i - 1) by {
        forall j | i - 1 < j < |files[1..]|
          ensures StoredName(files[1..][j]) != StoredName(files[1..][i - 1])
        {
          assert files[1..][j] == files[j + 1];
        }
      }
      ReceivedLast(next, files[1..], i - 1);
    }
  }

  /**
   * The upload loop: for each file, in order, the envelope of the bytes
   * multer stored under its name (read from `raw`, the directory as the
   * handler found it) is written under that name, with that file's IV.
   */
  function SealEach(c: Crypto, key: Bytes, raw: Directory, dir: Directory, files: seq<UploadedFile>, ivs: seq<Iv>): (r: Directory)
    requires |ivs| == |files| && Names(files) <= raw.Keys
    ensures r.Keys == dir.Keys + Names(files)
    ensures forall n :: n in dir && n !in Names(files) ==> r[n] == dir[n]
    decreases |files|
  {
    if files == [] then dir
    else
      NamesCons(files);
      var name := StoredName(files[0]);
      SealEach(c, key, raw, dir[name := Seal(c, key, ivs[0], raw[name])], files[1..], ivs[1..])
  }

  /** After the upload loop, a file's storage name holds the envelope written for the last file stored under it. */
  lemma {:induction false} SealEachLast(c: Crypto, key: Bytes, raw: Directory, dir: Directory, files: seq<UploadedFile>, ivs: seq<Iv>, i: nat)
    requires |ivs| == |files| && Names(files) <= raw.Keys
    requires i < |files| && LastWithName(files, i)
    ensures StoredName(files[i]) in SealEach(c, key, raw, dir, files, ivs)
    ensures SealEach(c, key, raw, dir, files, ivs)[StoredName(files[i])] == Seal(c, key, ivs[i], raw[StoredName(files[i])])
    decreases |files|
  {
    NamesCons(files);
    var name := StoredName(files[0]);
    var next := dir[name := Seal(c, key, ivs[0], raw[name])];
    if i == 0 {
      LastNotInRest(files);
    } else {
      assert LastWithName(files[1..], i - 1) by {
        forall j | i - 1 < j < |files[1..]|
          ensures StoredName(files[1..][j]) != StoredName(files[1..][i - 1])
        {
          assert files[1..][j] == files[j + 1];
        }
      }
      SealEachLast(c, key, raw, next, files[1..], ivs[1..], i - 1);
    }
  }

  /**
   * A batch upload under a configured secret: every storage name holds the
   * envelope of the bytes of the last file uploaded under it, that envelope
   * opens to exactly those bytes, the directory gains exactly the batch's
   * names and every other entry is unchanged.
   */
  lemma UploadBatchRoundTrip(c: Crypto, key: Bytes, dir: Directory, files: seq<UploadedFile>, ivs: seq<Iv>, i: nat)
    requires Sound(c) && CipherAccepts(key)
    requires |ivs| == |files| && i < |files| && LastWithName(files, i)
    ensures var raw := Received(dir, files);
      && SealEach(c, key, raw, raw, files, ivs).Keys == dir.Keys + Names(files)
      && (forall n :: n in dir && n !in Names(files) ==> SealEach(c, key, raw, raw, files, ivs)[n] == dir[n])
      && SealEach(c, key, raw, raw, files, ivs)[StoredName(files[i])] == Seal(c, key, ivs[i], files[i].data)
      && Open(c, key, SealEach(c, key, raw, raw, files, ivs)[StoredName(files[i])]) == Some(Deciphered(files[i].data, true))
  {
    var raw := Received(dir, files);
    ReceivedLast(dir, files, i);
    SealEachLast(c, key, raw, raw, files, ivs, i);
    OpenSeal(c, key, ivs[i], files[i].data);
  }

  /** The names decrypt-all writes for the files of a listing. */
  function OutputNames(order: seq<string>): (r: set<string>)
  {
    set n | n in order :: DecryptedName(n)
  }

  /** Some file of `order` cannot be opened under `key`: decrypt-all stops there. */
  predicate SomeUnopenable(c: Crypto, key: Bytes, enc: Directory, order: seq<string>)
    requires forall n :: n in order ==> n in enc
  {
    exists i :: 0 <= i < |order| && Open(c, key, enc[order[i]]).None?
  }

  lemma OutputNamesCons(order: seq<string>)
    requires order != []
    ensures OutputNames(order) == {DecryptedName(order[0])} + OutputNames(order[1..])
  {
    assert order == [order[0]] + order[1..];
  }

  /**
   * The decrypt-all loop over the listing `order`: each file's recovered
   * bytes are written to the decrypted directory under `DecryptedName` of its
   * name. The loop stops at the first file `createDecipheriv` refuses
   * (shorter than one IV); the result's flag says whether it stopped. A
   * padding failure does not stop it: the file gets the bytes the decipher
   * emitted.
   */
  function DecryptEach(c: Crypto, key: Bytes, enc: Directory, dec: Directory, order: seq<string>): (r: (Directory, bool))
    requires forall n :: n in order ==> n in enc
    ensures r.1 <==> SomeUnopenable(c, key, enc, order)
    ensures r.0.Keys <= dec.Keys + OutputNames(order)
    ensures !r.1 ==> r.0.Keys == dec.Keys + OutputNames(order)
    ensures forall m :: m in dec && m !in OutputNames(order) ==> m in r.0 && r.0[m] == dec[m]
    decreases |order|
  {
    if order == [] then (dec, false)
    else
      OutputNamesCons(order);
      match Open(c, key, enc[order[0]])
      case None => (dec, true)
      case Some(d) =>
        SomeUnopenableCons(c, key, enc, order);
        DecryptEach(c, key, enc, dec[DecryptedName(order[0]) := d.output], order[1..])
  }

  /** Past an openable first file, some file is unopenable exactly when one of the rest is. */
  lemma SomeUnopenableCons(c: Crypto, key: Bytes, enc: Directory, order: seq<string>)
    requires forall n :: n in order ==> n in enc
    requires order != [] && Open(c, key, enc[order[0]]).Some?
    ensures SomeUnopenable(c, key, enc, order) <==> SomeUnopenable(c, key, enc, order[1..])
  {
    assert forall i :: 1 <= i < |order| ==> order[1..][i - 1] == order[i];
  }

  /**
   * When the loop is not stopped, the name decrypt-all writes for a file holds
   * what the decipher emitted for it, provided no later file of the listing
   * maps to the same name.
   */
  lemma {:induction false} DecryptEachLast(c: Crypto, key: Bytes, enc: Directory, dec: Directory, order: seq<string>, i: nat)
    requires forall n :: n in order ==> n in enc
    requires !SomeUnopenable(c, key, enc, order)
    requires i < |order| && forall j :: i < j < |order| ==> DecryptedName(order[j]) != DecryptedName(order[i])
    ensures Open(c, key, enc[order[i]]).Some?
    ensures DecryptedName(order[i]) in DecryptEach(c, key, enc, dec, order).0
    ensures DecryptEach(c, key, enc, dec, order).0[DecryptedName(order[i])] == Open(c, key, enc[order[i]]).value.output
    decreases |order|
  {
    assert Open(c, key, enc[order[0]]).Some?;
    var next := dec[DecryptedName(order[0]) := Open(c, key, enc[order[0]]).value.output];
    assert forall k :: 1 <= k < |order| ==> order[1..][k - 1] == order[k];
    if i == 0 {
      assert DecryptedName(order[0]) !in OutputNames(order[1..]) by {
        forall n | n in order[1..] ensures DecryptedName(n) != DecryptedName(order[0]) {
          var j :| 0 <= j < |order[1..]| && order[1..][j] == n;
          assert order[j + 1] == n;
        }
      }
    } else {
      DecryptEachLast(c, key, enc, next, order[1..], i - 1);
    }
  }

  /**
   * Decrypt-all stops at the first file too short to hold an IV: exactly the
   * files listed before it have been written, and none after it.
   */
  lemma {:induction false} DecryptEachStopsAt(c: Crypto, key: Bytes, enc: Directory, dec: Directory, order: seq<string>, i: nat)
    requires forall n :: n in order ==> n in enc
    requires i < |order| && Open(c, key, enc[order[i]]).None?
    requires forall j :: 0 <= j < i ==> Open(c, key, enc[order[j]]).Some?
    ensures DecryptEach(c, key, enc, dec, order) == (DecryptEach(c, key, enc, dec, order[..i]).0, true)
    decreases |order|
  {
    if i > 0 {
      assert forall k :: 1 <= k < |order| ==> order[1..][k - 1] == order[k];
      assert order[..i][1..] == order[1..][..i - 1];
      var next := dec[DecryptedName(order[0]) := Open(c, key, enc[order[0]]).value.output];
      DecryptEachStopsAt(c, key, enc, next, order[1..], i - 1);
    }
  }

  /**
   * Decrypt-all over a listing of envelopes all sealed under the key it
   * derives recovers every file: it does not stop, and each file's output name
   * holds exactly the bytes that were sealed, provided no two listed names
   * map to the same output name.
   */
  lemma DecryptAllRecovers(c: Crypto, key: Bytes, enc: Directory, dec: Directory, order: seq<string>,
                           ivs: map<string, Iv>, plain: Directory)
    requires Sound(c) && CipherAccepts(key)
    requires forall n :: n in order ==> n in enc && n in ivs && n in plain && enc[n] == Seal(c, key, ivs[n], plain[n])
    requires forall i, j :: 0 <= i < j < |order| ==> DecryptedName(order[i]) != DecryptedName(order[j])
    ensures !DecryptEach(c, key, enc, dec, order).1
    ensures forall n :: n in order ==> DecryptEach(c, key, enc, dec, order).0[DecryptedName(n)] == plain[n]
  {
    forall i | 0 <= i < |order| ensures Open(c, key, enc[order[i]]) == Some(Deciphered(plain[order[i]], true)) {
      OpenSeal(c, key, ivs[order[i]], plain[order[i]]);
    }
    forall n | n in order ensures DecryptEach(c, key, enc, dec, order).0[DecryptedName(n)] == plain[n] {
      var i :| 0 <= i < |order| && order[i] == n;
      DecryptEachLast(c, key, enc, dec, order, i);
    }
  }

  /** The bytes of the text "hello world". */
  const HelloWorld: Bytes := [104, 101, 108, 108, 111, 32, 119, 111, 114, 108, 100]

  /** An upload named "a b.txt" is stored as "a_b.txt". */
  lemma HelloWorldName()
    ensures StoredName(UploadedFile("a b.txt", HelloWorld)) == "a_b.txt"
  {
    var r := Sanitize("a b.txt");
    assert r[0] == 'a' && r[1] == '_' && r[2] == 'b' && r[3] == '.';
    assert r[4] == 't' && r[5] == 'x' && r[6] == 't';
  }

  /**
   * "hello world" uploaded with the secret "test-key" is kept in a 32-byte envelope (the IV and one padded
   * block) that opens to "hello world" again.
   */
  lemma HelloWorldEnvelope(c: Crypto, iv: Iv)
    requires Sound(c)
    ensures ConfiguredKey(c, Some("test-key")).Some?
    ensures var key := ConfiguredKey(c, Some("test-key")).value;
      && |Seal(c, key, iv, HelloWorld)| == 32
      && Open(c, key, Seal(c, key, iv, HelloWorld)) == Some(Deciphered(HelloWorld, true))
  {
    ConfiguredKeyLength(c, "test-key");
    var key := ConfiguredKey(c, Some("test-key")).value;
    SealLayout(c, key, iv, HelloWorld);
    OpenSeal(c, key, iv, HelloWorld);
  }
}
