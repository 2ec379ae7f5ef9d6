/** Encrypted documents on disk (cryptofile.py): the envelope, and the atomic write under failures
    and crashes. The cipher, the key derivation and the JSON codec are given functions; text is its UTF-8 bytes. */
module CryptoFile {
  import opened Wrappers
  import opened ByteCodec

  type Bytes = seq<byte>

  datatype Cipher = Cipher(
    deriveKey: (Bytes, Bytes) -> Bytes,
    seal: (Bytes, Bytes, Bytes, Bytes) -> Bytes,
    open: (Bytes, Bytes, Bytes, Bytes) -> Option<Bytes>)

  /** Opening a sealed text with the same key, nonce and associated data gives it back. */
  ghost predicate Correct(c: Cipher) {
    forall key, nonce, text, aad ::
      c.open(key, nonce, c.seal(key, nonce, text, aad), aad) == Some(text)
  }

  datatype EnvelopeError = TooShort | BadMagic | UnsupportedVersion | AuthenticationFailed

  const MAGIC: Bytes := [0x53, 0x57, 0x43, 0x46]
  const VERSION: byte := 1
  const NONCE_SIZE: nat := 12
  const HEADER_SIZE: nat := 5

  function Aad(purpose: Bytes): Bytes {
    MAGIC + [VERSION] + purpose
  }

  function Encrypt(c: Cipher, key1: Bytes, purpose: Bytes, nonce: Bytes, plaintext: Bytes): Bytes
    requires |nonce| == NONCE_SIZE
  {
    MAGIC + [VERSION] + nonce + c.seal(c.deriveKey(key1, purpose), nonce, plaintext, Aad(purpose))
  }

  function Decrypt(c: Cipher, key1: Bytes, purpose: Bytes, blob: Bytes): Result<Bytes, EnvelopeError> {
    if |blob| < HEADER_SIZE + NONCE_SIZE then Failure(TooShort)
    else if blob[..4] != MAGIC then Failure(BadMagic)
    else if blob[4] != VERSION then Failure(UnsupportedVersion)
    else
      var nonce := blob[HEADER_SIZE..HEADER_SIZE + NONCE_SIZE];
      var text := c.open(c.deriveKey(key1, purpose), nonce, blob[HEADER_SIZE + NONCE_SIZE..], Aad(purpose));
      if text.Some? then Success(text.value) else Failure(AuthenticationFailed)
  }

  lemma EnvelopeRoundTrip(c: Cipher, key1: Bytes, purpose: Bytes, nonce: Bytes, plaintext: Bytes)
    requires Correct(c) && |nonce| == NONCE_SIZE
    ensures Decrypt(c, key1, purpose, Encrypt(c, key1, purpose, nonce, plaintext)) == Success(plaintext)
  {
    var blob := Encrypt(c, key1, purpose, nonce, plaintext);
    var sealed := c.seal(c.deriveKey(key1, purpose), nonce, plaintext, Aad(purpose));
    assert blob == (MAGIC + [VERSION]) + (nonce + sealed);
    assert blob[..4] == MAGIC && blob[4] == VERSION;
    assert blob[HEADER_SIZE..HEADER_SIZE + NONCE_SIZE] == nonce;
    assert blob[HEADER_SIZE + NONCE_SIZE..] == sealed;
  }

  /** A document decrypts exactly if it is "SWCF", the version byte 1, a nonce of twelve bytes and a text
      that the cipher opens with the key derived for the purpose, this nonce, and the first five bytes
      and the purpose as associated data; the result is what the cipher opens. */
  lemma DecryptsIff(c: Cipher, key1: Bytes, purpose: Bytes, blob: Bytes, plaintext: Bytes)
    ensures Decrypt(c, key1, purpose, blob) == Success(plaintext) <==>
              exists nonce, sealed :: IsEnvelope(blob, nonce, sealed) &&
                     Opens(c, key1, purpose, nonce, sealed, plaintext)
  {
    if |blob| >= 17 {
      var nonce, sealed := blob[5..17], blob[17..];
      assert blob == blob[..4] + [blob[4]] + nonce + sealed;
      if Decrypt(c, key1, purpose, blob) == Success(plaintext) {
        assert IsEnvelope(blob, nonce, sealed) && Opens(c, key1, purpose, nonce, sealed, plaintext);
      }
      forall n, s | IsEnvelope(blob, n, s) && Opens(c, key1, purpose, n, s, plaintext)
        ensures Decrypt(c, key1, purpose, blob) == Success(plaintext)
      {
        assert blob[..4] == [0x53, 0x57, 0x43, 0x46] && n == nonce && s == sealed;
      }
    }
  }

  ghost predicate IsEnvelope(blob: Bytes, nonce: Bytes, sealed: Bytes) {
    |nonce| == 12 && blob == [0x53, 0x57, 0x43, 0x46] + [1] + nonce + sealed
  }

  ghost predicate Opens(c: Cipher, key1: Bytes, purpose: Bytes, nonce: Bytes, sealed: Bytes, plaintext: Bytes) {
    c.open(c.deriveKey(key1, purpose), nonce, sealed, [0x53, 0x57, 0x43, 0x46] + [1] + purpose) == Some(plaintext)
  }

  /** The cipher opens only what was sealed with the same key, nonce and associated data. */
  ghost predicate Authentic(c: Cipher) {
    forall key, nonce, sealed, aad, text ::
      c.open(key, nonce, sealed, aad) == Some(text) ==> sealed == c.seal(key, nonce, text, aad)
  }

  /** With an authentic cipher only an encryption of the very result, under the same KEY1 and purpose,
      decrypts. */
  lemma DecryptedWasEncrypted(c: Cipher, key1: Bytes, purpose: Bytes, blob: Bytes)
    requires Authentic(c) && Decrypt(c, key1, purpose, blob).Success?
    ensures exists nonce :: |nonce| == NONCE_SIZE
              && blob == Encrypt(c, key1, purpose, nonce, Decrypt(c, key1, purpose, blob).value)
  {
    var nonce := blob[HEADER_SIZE..HEADER_SIZE + NONCE_SIZE];
    var text := Decrypt(c, key1, purpose, blob).value;
    assert blob == blob[..4] + [blob[4]] + nonce + blob[HEADER_SIZE + NONCE_SIZE..];
    assert blob == Encrypt(c, key1, purpose, nonce, text);
  }

  /** The reason why a document does not decrypt, in the order of the tests. */
  lemma DecryptErrors(c: Cipher, key1: Bytes, purpose: Bytes, blob: Bytes)
    ensures Decrypt(c, key1, purpose, blob) == Failure(TooShort) <==> |blob| < 17
    ensures Decrypt(c, key1, purpose, blob) == Failure(BadMagic) <==>
              |blob| >= 17 && blob[..4] != [0x53, 0x57, 0x43, 0x46]
    ensures Decrypt(c, key1, purpose, blob) == Failure(UnsupportedVersion) <==>
              |blob| >= 17 && blob[..4] == [0x53, 0x57, 0x43, 0x46] && blob[4] != 1
  {
  }

  // ---------- the file system ----------

  /** The step of atomic_write_bytes at which something goes wrong, and what does. A crash while
      writing leaves any prefix of the data in the temporary file; after an exception the
      temporary file may or may not be removed. */
  datatype Fault =
    | NoFault
    | RaiseAt(step: WriteStep, unlinked: bool)
    | CrashAt(step: WriteStep, written: nat)
    | CrashAfterReplace
  {
    predicate RaisesAt(s: WriteStep) {
      RaiseAt? && step == s
    }

    predicate CrashesAt(s: WriteStep) {
      CrashAt? && step == s
    }
  }

  datatype WriteStep = MakeDirectory | MakeTemporary | WriteData | Flush | Sync | Replace

  datatype WriteOutcome = Written | Raised | Crashed

  /** The same files apart from the named ones. */
  ghost predicate SameApartFrom(files: map<string, Bytes>, files': map<string, Bytes>, names: set<string>) {
    files - names == files' - names
  }

  class FileSystem {
    var files: map<string, Bytes>

    /** Writes data to path through the new file tmp. Whatever goes wrong, path holds the complete old
        or the complete new document: the new one after a normal return, the old one after an
        exception; no third file changes. */
    method AtomicWriteBytes(path: string, data: Bytes, tmp: string, fault: Fault) returns (o: WriteOutcome)
      requires tmp !in files && tmp != path
      modifies this
      ensures o == Written <==> fault == NoFault
      ensures o == Raised <==> fault.RaiseAt?
      ensures o == Written ==> files == old(files)[path := data]
      ensures o == Raised ==> files - {tmp} == old(files)
      ensures fault.CrashAt? ==> files - {tmp} == old(files)
      ensures fault == CrashAfterReplace ==> files == old(files)[path := data]
      ensures SameApartFrom(files, old(files), {path, tmp})
    {
      assert files - {tmp} == files;
      if fault.CrashesAt(MakeDirectory) { return Crashed; }
      if fault.RaisesAt(MakeDirectory) { return Raised; }
      if fault.CrashesAt(MakeTemporary) { return Crashed; }
      if fault.RaisesAt(MakeTemporary) { return Raised; }
      files := files[tmp := []];
      if fault.CrashesAt(WriteData) {
        files := files[tmp := data[..Min(fault.written, |data|)]];
        assert files - {tmp} == old(files);
        return Crashed;
      }
      if !fault.RaisesAt(WriteData) {
        files := files[tmp := data];
      }
      assert files - {tmp} == old(files);
      if fault.CrashesAt(Flush) || fault.CrashesAt(Sync) || fault.CrashesAt(Replace) {
        return Crashed;
      }
      if fault.RaisesAt(WriteData) || fault.RaisesAt(Flush) || fault.RaisesAt(Sync) || fault.RaisesAt(Replace) {
        if fault.unlinked {
          files := files - {tmp};
        }
        assert files - {tmp} == old(files);
        return Raised;
      }
      files := (files - {tmp})[path := files[tmp]];
      assert files == old(files)[path := data];
      if fault == CrashAfterReplace {
        return Crashed;
      }
      return Written;
    }
  }
}
