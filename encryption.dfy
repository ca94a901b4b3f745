/** The password envelope of `src/lib/encryption.ts`.

    An encrypted file holds `iv[12] || AES-GCM ciphertext-and-tag`, and its
    name is the original name followed by `.encrypted`. The key comes from
    the password alone, by PBKDF2 with a fixed salt. The Web Crypto calls
    (`deriveKey`, `encrypt`, `decrypt`) are foreign, so they are passed in as
    a `CryptoProvider`; `IsAesGcm` states what the model assumes about them. */
module Encryption {
  import opened Base
  import opened Strings

  /** Bytes of the nonce (`new Uint8Array(12)`). */
  const IvLength: nat := 12
  /** Bytes of the authentication tag AES-GCM appends by default (128 bits). */
  const TagLength: nat := 16
  const EncryptedSuffix := ".encrypted"
  const EncryptedMimeType := "application/encrypted"
  /** The one error every failure inside `decryptFile` becomes. */
  const DecryptFailedMessage := "Failed to decrypt file. " + "Please check your password."

  /** The parameters handed to `deriveKey`. */
  datatype KdfParams = KdfParams(
    name: string, salt: seq<byte>, iterations: nat, hash: string,
    keyAlgorithm: string, keyLength: nat)

  /** PBKDF2 (section 5.2 of RFC 8018) over `TextEncoder().encode("secure-salt")`,
      100000 iterations of HMAC-SHA-256, yielding a 256-bit AES-GCM key. */
  const Pbkdf2Params := KdfParams("PBKDF2", AsciiBytes("secure-salt"), 100000, "SHA-256", "AES-GCM", 256)

  /** A derived `CryptoKey`. */
  datatype Key = Key(material: seq<byte>)

  /** The foreign primitives: key derivation from a password (which may
      reject with a message), AES-GCM sealing under a key and nonce, and
      AES-GCM opening, which yields nothing when authentication fails. */
  datatype CryptoProvider = CryptoProvider(
    deriveKey: (string, KdfParams) -> Result<Key>,
    seal: (Key, seq<byte>, seq<byte>) -> seq<byte>,
    open: (Key, seq<byte>, seq<byte>) -> Option<seq<byte>>)

  /** What AES-GCM (NIST SP 800-38D, sections 7.1 and 7.2) guarantees and the
      model relies on: opening what was sealed under the same key and a
      96-bit nonce gives the plaintext back; sealing appends a 16-byte tag;
      a ciphertext shorter than the tag never opens. */
  ghost predicate IsAesGcm(c: CryptoProvider) {
    && (forall k, iv, pt {:trigger c.seal(k, iv, pt)} ::
          |iv| == IvLength ==> c.open(k, iv, c.seal(k, iv, pt)) == Some(pt))
    && (forall k, iv, pt {:trigger c.seal(k, iv, pt)} ::
          |c.seal(k, iv, pt)| == |pt| + TagLength)
    && (forall k, iv, ct {:trigger c.open(k, iv, ct)} ::
          |ct| < TagLength ==> c.open(k, iv, ct) == None)
  }

  /** `generateKey(password)`: the provider's key derivation under the fixed
      `Pbkdf2Params`, so it depends on the password and nothing else. */
  function GenerateKey(c: CryptoProvider, password: string): Result<Key>
  {
    c.deriveKey(password, Pbkdf2Params)
  }

  // ---------------------------------------------------------------------------
  // Envelope layout

  /** The two parts of an envelope. */
  datatype Envelope = Envelope(iv: seq<byte>, ciphertext: seq<byte>)

  /** The bytes of an envelope: the nonce, then the ciphertext-and-tag. */
  function Encode(e: Envelope): (r: seq<byte>)
    ensures |r| == |e.iv| + |e.ciphertext|
    ensures r[..|e.iv|] == e.iv && r[|e.iv|..] == e.ciphertext
  {
    e.iv + e.ciphertext
  }

  /** The length check and the two `slice` calls of `decryptFile`: fewer than
      12 bytes is no envelope; otherwise the first 12 bytes are the nonce and
      all the rest, possibly nothing, is the ciphertext. */
  function Decode(data: seq<byte>): (r: Option<Envelope>)
    ensures r.None? <==> |data| < IvLength
    ensures r.Some? ==> |r.value.iv| == IvLength && Encode(r.value) == data
  {
    if |data| < IvLength then None
    else Some(Envelope(data[..IvLength], data[IvLength..]))
  }

  /** Decoding undoes encoding for every 12-byte nonce and every ciphertext. */
  lemma DecodeEncode(e: Envelope)
    requires |e.iv| == IvLength
    ensures Decode(Encode(e)) == Some(e)
  {
    var d := Decode(Encode(e));
    assert d.value.iv == Encode(e)[..IvLength] == e.iv;
    assert d.value.ciphertext == Encode(e)[IvLength..] == e.ciphertext;
  }

  /** Exactly 12 bytes is a well-formed envelope whose ciphertext is empty. */
  lemma DecodeExactlyIv(data: seq<byte>)
    requires |data| == IvLength
    ensures Decode(data) == Some(Envelope(data, []))
  {
    assert data[..IvLength] == data && data[IvLength..] == [];
  }

  /** `Uint8Array.prototype.set(source, offset)`: copies `source` into
      `target` from `offset` on, leaving every other element as it was. */
  method SetBytes(target: array<byte>, source: seq<byte>, offset: nat)
    requires offset + |source| <= target.Length
    modifies target
    ensures target[..] == old(target[..offset]) + source + old(target[offset + |source|..])
  {
    ghost var before := target[..];
    var k := 0;
    while k < |source|
      invariant 0 <= k <= |source|
      invariant target[..] == before[..offset] + source[..k] + before[offset + k..]
    {
      target[offset + k] := source[k];
      assert source[..k + 1] == source[..k] + [source[k]];
      k := k + 1;
    }
    assert source[..k] == source;
  }

  /** Lines 37-39 of `encryptFile`: a zeroed buffer of `|iv| + |ciphertext|`
      bytes, the nonce copied to its start and the ciphertext after it. */
  method CombineIvAndCiphertext(iv: seq<byte>, ciphertext: seq<byte>) returns (combined: array<byte>)
    ensures fresh(combined)
    ensures combined[..] == Encode(Envelope(iv, ciphertext))
  {
    combined := new byte[|iv| + |ciphertext|];
    SetBytes(combined, iv, 0);
    SetBytes(combined, ciphertext, |iv|);
  }

  // ---------------------------------------------------------------------------
  // File names

  /** The name `encryptFile` gives its output. */
  function EncryptedName(name: string): (r: string)
    ensures |r| == |name| + |EncryptedSuffix|
    ensures EndsWith(r, EncryptedSuffix) && r[..|name|] == name
  {
    name + EncryptedSuffix
  }

  /** The name `decryptFile` gives its output: `name.replace('.encrypted', '')`,
      which drops the FIRST occurrence, wherever it stands. */
  function DecryptedName(name: string): (r: string)
    ensures !Contains(name, EncryptedSuffix) ==> r == name
    ensures Contains(name, EncryptedSuffix) ==> |r| == |name| - |EncryptedSuffix|
  {
    RemoveFirst(name, EncryptedSuffix)
  }

  /** A name holding no `.encrypted` is left alone by decryption. */
  lemma DecryptedNameWithoutSuffix(name: string)
    requires !Contains(name, EncryptedSuffix)
    ensures DecryptedName(name) == name
  {
  }

  /** `.` opens the suffix and appears nowhere else in it. */
  lemma SuffixHasOneDot(j: nat)
    requires 0 < j < |EncryptedSuffix|
    ensures EncryptedSuffix[j] != '.' && EncryptedSuffix[0] == '.'
  {
  }

  /** In `name + ".encrypted" + rest`, where `name` holds no `.encrypted`,
      the first occurrence is the one right after `name`: the suffix cannot
      straddle the joint, because its only `.` is its first character. */
  lemma {:induction false} FirstSuffixFollowsName(name: string, rest: string)
    requires !Contains(name, EncryptedSuffix)
    ensures IndexOf(name + EncryptedSuffix + rest, EncryptedSuffix) == Some(|name|)
  {
    var s := name + EncryptedSuffix + rest;
    assert s[|name|..|name| + |EncryptedSuffix|] == EncryptedSuffix;
    assert OccursAt(s, EncryptedSuffix, |name|);
    forall j: nat | j < |name| ensures !OccursAt(s, EncryptedSuffix, j) {
      if OccursAt(s, EncryptedSuffix, j) {
        if j + |EncryptedSuffix| <= |name| {
          assert name[j..j + |EncryptedSuffix|] == s[j..j + |EncryptedSuffix|];
          assert OccursAt(name, EncryptedSuffix, j);
          assert false;
        } else {
          SuffixHasOneDot(|name| - j);
          assert false;
        }
      }
    }
  }

  /** Decrypting the name `name + ".encrypted" + rest` drops exactly the
      `.encrypted` after `name`, when `name` holds none. */
  lemma {:induction false} DecryptedNameDropsFirst(name: string, rest: string)
    requires !Contains(name, EncryptedSuffix)
    ensures DecryptedName(name + EncryptedSuffix + rest) == name + rest
  {
    FirstSuffixFollowsName(name, rest);
    var s := name + EncryptedSuffix + rest;
    assert s[..|name|] + s[|name| + |EncryptedSuffix|..] == name + rest;
  }

  /** Renaming for encryption and then for decryption restores every name that
      does not already hold `.encrypted`. */
  lemma {:induction false} NameRoundTrip(name: string)
    requires !Contains(name, EncryptedSuffix)
    ensures DecryptedName(EncryptedName(name)) == name
  {
    DecryptedNameDropsFirst(name, "");
    assert name + EncryptedSuffix + "" == EncryptedName(name);
    assert name + "" == name;
  }

  /** The first occurrence goes, not a trailing one: decrypting the name
      `a.encrypted.txt.encrypted` gives `a.txt.encrypted`. */
  lemma StripsFirstNotTrailing()
    ensures DecryptedName("a" + EncryptedSuffix + ".txt" + EncryptedSuffix) == "a.txt" + EncryptedSuffix
  {
    var rest := ".txt" + EncryptedSuffix;
    assert !Contains("a", EncryptedSuffix);
    DecryptedNameDropsFirst("a", rest);
    assert "a" + EncryptedSuffix + rest == "a" + EncryptedSuffix + ".txt" + EncryptedSuffix;
  }

  // ---------------------------------------------------------------------------
  // encryptFile and decryptFile

  /** What `encryptFile(file, password)` resolves to with nonce `iv`: key
      derivation may reject, and its error propagates; otherwise the file
      named `name.encrypted`, typed `application/encrypted`, holding the
      envelope of `iv` and the sealed content. */
  function EncryptedFile(c: CryptoProvider, file: File, password: string, iv: seq<byte>): (r: Result<File>)
    ensures r.Err? <==> GenerateKey(c, password).Err?
    ensures r.Err? ==> r.message == GenerateKey(c, password).message
    ensures r.Ok? ==> r.value.name == EncryptedName(file.name) && r.value.mimeType == EncryptedMimeType
    ensures r.Ok? ==> |r.value.content| >= |iv| && r.value.content[..|iv|] == iv
  {
    match GenerateKey(c, password)
    case Err(m) => Err(m)
    case Ok(key) =>
      Ok(File(EncryptedName(file.name), Encode(Envelope(iv, c.seal(key, iv, file.content))), EncryptedMimeType))
  }

  /** `encryptFile`, with the random nonce of `getRandomValues` passed in. */
  method EncryptFile(c: CryptoProvider, file: File, password: string, iv: seq<byte>) returns (r: Result<File>)
    requires |iv| == IvLength
    ensures r == EncryptedFile(c, file, password, iv)
  {
    var key := GenerateKey(c, password);
    if key.Err? {
      return Err(key.message);
    }
    var encryptedData := c.seal(key.value, iv, file.content);
    var combinedData := CombineIvAndCiphertext(iv, encryptedData);
    r := Ok(File(EncryptedName(file.name), combinedData[..], EncryptedMimeType));
  }

  /** The encrypted file's layout: its bytes are exactly the nonce followed by
      the sealed content, and it is named and typed as an encrypted file. */
  lemma EncryptedFileLayout(c: CryptoProvider, file: File, password: string, iv: seq<byte>)
    requires |iv| == IvLength && GenerateKey(c, password).Ok?
    ensures var f := EncryptedFile(c, file, password, iv);
            var ct := c.seal(GenerateKey(c, password).value, iv, file.content);
            && f.Ok?
            && |f.value.content| == IvLength + |ct|
            && f.value.content[..IvLength] == iv
            && f.value.content[IvLength..] == ct
            && f.value.name == file.name + ".encrypted"
            && f.value.mimeType == "application/encrypted"
  {
  }

  /** `decryptFile(encryptedFile, password)`: derive the key, reject fewer
      than 12 bytes, split at 12, open, and rename; any failure on the way
      becomes the one `DecryptFailedMessage`. */
  function DecryptFile(c: CryptoProvider, encrypted: File, password: string): (r: Result<File>)
    ensures r.Err? ==> r.message == DecryptFailedMessage
    ensures r.Ok? ==> |encrypted.content| >= IvLength && GenerateKey(c, password).Ok?
    ensures r.Ok? ==>
              var key := GenerateKey(c, password).value;
              c.open(key, encrypted.content[..IvLength], encrypted.content[IvLength..]) == Some(r.value.content)
    ensures r.Ok? ==> r.value.name == DecryptedName(encrypted.name) && r.value.mimeType == ""
    ensures GenerateKey(c, password).Ok? && |encrypted.content| >= IvLength
            && c.open(GenerateKey(c, password).value, encrypted.content[..IvLength], encrypted.content[IvLength..]).Some?
            ==> r.Ok?
  {
    match GenerateKey(c, password)
    case Err(_) => Err(DecryptFailedMessage)
    case Ok(key) =>
      match Decode(encrypted.content)
      case None => Err(DecryptFailedMessage)
      case Some(envelope) =>
        match c.open(key, envelope.iv, envelope.ciphertext)
        case None => Err(DecryptFailedMessage)
        case Some(plain) => Ok(File(DecryptedName(encrypted.name), plain, ""))
  }

  /** Fewer than 12 bytes are refused whatever the cipher would have said:
      the result is the same for any two providers, so `decrypt` is never
      consulted. */
  lemma ShortInputRejectedBeforeCipher(c: CryptoProvider, other: CryptoProvider, f: File, password: string)
    requires |f.content| < IvLength
    ensures DecryptFile(c, f, password) == Err(DecryptFailedMessage)
    ensures DecryptFile(c, f, password) == DecryptFile(other, f, password)
  {
  }

  /** Exactly 12 bytes pass the length check and hand an empty ciphertext to
      `decrypt`, which AES-GCM refuses: the result is still the one error. */
  lemma IvOnlyInputOpensEmptyCiphertext(c: CryptoProvider, f: File, password: string)
    requires IsAesGcm(c) && |f.content| == IvLength && GenerateKey(c, password).Ok?
    ensures Decode(f.content) == Some(Envelope(f.content, []))
    ensures DecryptFile(c, f, password) == Err(DecryptFailedMessage)
  {
    var key := GenerateKey(c, password).value;
    DecodeExactlyIv(f.content);
    assert c.open(key, f.content, []) == None;
  }

  /** Opening an envelope sealed under the key of `password`, whatever the
      file's name and type, gives back the plaintext under the decrypted
      name. */
  lemma {:induction false} OpenSealedEnvelope(c: CryptoProvider, name: string, mimeType: string,
                                              plain: seq<byte>, password: string, iv: seq<byte>)
    requires IsAesGcm(c) && |iv| == IvLength && GenerateKey(c, password).Ok?
    ensures var ct := c.seal(GenerateKey(c, password).value, iv, plain);
            DecryptFile(c, File(name, Encode(Envelope(iv, ct)), mimeType), password)
              == Ok(File(DecryptedName(name), plain, ""))
  {
    var key := GenerateKey(c, password).value;
    var ct := c.seal(key, iv, plain);
    DecodeEncode(Envelope(iv, ct));
    assert c.open(key, iv, ct) == Some(plain);
  }

  /** The round trip: the same password gives the same key, so decrypting what
      `encryptFile` produced returns the original bytes, and the original name
      whenever it did not already hold `.encrypted`. */
  lemma {:induction false} EncryptDecryptRoundTrip(c: CryptoProvider, file: File, password: string, iv: seq<byte>)
    requires IsAesGcm(c) && |iv| == IvLength
    requires GenerateKey(c, password).Ok?
    requires !Contains(file.name, EncryptedSuffix)
    ensures EncryptedFile(c, file, password, iv).Ok?
    ensures DecryptFile(c, EncryptedFile(c, file, password, iv).value, password) == Ok(File(file.name, file.content, ""))
  {
    OpenSealedEnvelope(c, EncryptedName(file.name), EncryptedMimeType, file.content, password, iv);
    NameRoundTrip(file.name);
  }
}
