/** The part of server.py that keeps shares, over an encrypted file: the routes change the memory
    document and persist it, and refine the share store for every fault of the write. */
module ShareServer {
  import opened Wrappers
  import opened Identity
  import opened Shares
  import opened CryptoFile
  import opened ShareStore
  import Shamir

  /** "secretweb-shares-v1". */
  const SHARES_FILE_PURPOSE: Bytes :=
    [0x73, 0x65, 0x63, 0x72, 0x65, 0x74, 0x77, 0x65, 0x62, 0x2d, 0x73, 0x68, 0x61, 0x72, 0x65, 0x73, 0x2d, 0x76, 0x31]

  /** The cipher, and json.dumps and json.loads on the shares document. */
  datatype Platform = Platform(cipher: Cipher, dumps: Document -> Bytes, loads: Bytes -> Option<Document>)

  ghost predicate PlatformCorrect(p: Platform) {
    CryptoFile.Correct(p.cipher) && forall d :: p.loads(p.dumps(d)) == Some(d)
  }

  datatype StartResult = Started | StartFailed | Died

  function Outcome(fault: Fault): SaveOutcome {
    match fault
    case NoFault => Saved
    case RaiseAt(_, _) => SaveRaised
    case CrashAt(_, _) => CrashedBeforeRename
    case CrashAfterReplace => CrashedAfterRename
  }

  /** The document a load of the blob returns. */
  function LoadBlob(p: Platform, key1: Bytes, blob: Bytes): Option<Document> {
    match Decrypt(p.cipher, key1, SHARES_FILE_PURPOSE, blob)
    case Success(text) => p.loads(text)
    case Failure(_) => None
  }

  function Seal(p: Platform, key1: Bytes, nonce: Bytes, d: Document): Bytes
    requires |nonce| == NONCE_SIZE
  {
    Encrypt(p.cipher, key1, SHARES_FILE_PURPOSE, nonce, p.dumps(d))
  }

  lemma SealedDocumentLoads(p: Platform, key1: Bytes, nonce: Bytes, d: Document)
    requires PlatformCorrect(p) && |nonce| == NONCE_SIZE
    ensures LoadBlob(p, key1, Seal(p, key1, nonce, d)) == Some(d)
  {
    EnvelopeRoundTrip(p.cipher, key1, SHARES_FILE_PURPOSE, nonce, p.dumps(d));
  }

  /** The blob is a document sealed under the key. */
  ghost predicate SealedUnder(p: Platform, key1: Bytes, blob: Bytes) {
    exists nonce, d :: |nonce| == NONCE_SIZE && blob == Seal(p, key1, nonce, d)
  }

  /** The blank decoder each POST is tried on. */
  method AcceptedByBlankDecoder(share: Share) returns (ok: bool)
    ensures ok <==> Acceptable(share)
  {
    var blank := new Shamir.ShamirSecret("", "", 5, 3, "");
    var r := blank.PopulateDecoder(share);
    ok := r.Success?;
  }

  class Server {
    const platform: Platform
    const files: FileSystem
    const path: string
    const key1: Bytes
    var shares: Document

    constructor (platform: Platform, files: FileSystem, path: string, key1: Bytes)
      ensures this.platform == platform && this.files == files && this.path == path && this.key1 == key1
      ensures shares == map[]
    {
      this.platform := platform;
      this.files := files;
      this.path := path;
      this.key1 := key1;
      this.shares := map[];
    }

    ghost predicate HasFile()
      reads files
    {
      path in files.files && LoadBlob(platform, key1, files.files[path]).Some?
    }

    ghost function OnDisk(): Document
      requires HasFile()
      reads files
    {
      LoadBlob(platform, key1, files.files[path]).value
    }

    ghost function Abstract(): Store
      requires HasFile()
      reads this, files
    {
      Store(shares, OnDisk())
    }

    /** cryptofile.save of the memory document. */
    method PersistShares(nonce: Bytes, tmp: string, fault: Fault) returns (o: WriteOutcome)
      requires PlatformCorrect(platform) && |nonce| == NONCE_SIZE
      requires tmp !in files.files && tmp != path
      modifies files
      ensures o == Written <==> fault == NoFault
      ensures o == Raised <==> fault.RaiseAt?
      ensures fault == NoFault || fault == CrashAfterReplace ==> HasFile() && OnDisk() == shares
      ensures fault.RaiseAt? || fault.CrashAt? ==>
                (HasFile() <==> old(HasFile())) && (HasFile() ==> OnDisk() == old(OnDisk()))
      ensures fault == NoFault || fault == CrashAfterReplace ==> SealedUnder(platform, key1, files.files[path])
      ensures SameApartFrom(files.files, old(files.files), {path, tmp})
      ensures fault.RaiseAt? || fault.CrashAt? ==>
                if path in old(files.files) then path in files.files && files.files[path] == old(files.files)[path]
                else path !in files.files
    {
      SealedDocumentLoads(platform, key1, nonce, shares);
      var blob := Seal(platform, key1, nonce, shares);
      ghost var before := files.files;
      o := files.AtomicWriteBytes(path, blob, tmp, fault);
      assert path in files.files <==> path in files.files - {tmp};
      assert path in files.files ==> files.files[path] == (files.files - {tmp})[path];
    }

    /** POST /shares/<path>. Where the server stays up the new store and the reply are those of the
        abstract store; where it dies, what a reload finds is. */
    method StoreShare(sharePath: string, payload: Option<Share>, commonName: Option<string>,
                      nonce: Bytes, tmp: string, fault: Fault) returns (reply: Reply)
      requires PlatformCorrect(platform) && HasFile() && |nonce| == NONCE_SIZE
      requires tmp !in files.files && tmp != path
      modifies this, files
      ensures HasFile()
      ensures reply == PostShare(old(Abstract()), sharePath, payload, commonName, Outcome(fault)).1
      ensures PostShare(old(Abstract()), sharePath, payload, commonName, Outcome(fault)).0
           == if reply == NoReply then Reload(Abstract()) else Abstract()
      ensures old(SealedUnder(platform, key1, files.files[path])) ==> SealedUnder(platform, key1, files.files[path])
    {
      hide Acceptable, PlatformCorrect, SameShare, OwnerMatches, SealedUnder, LoadBlob;
      if payload == None || payload.value.uuid != sharePath {
        return BadRequest;
      }
      var accepted := AcceptedByBlankDecoder(payload.value);
      if !accepted {
        return BadRequest;
      }
      if !OwnerMatches(commonName, payload.value.owner) {
        return Forbidden;
      }
      if sharePath in shares {
        if SameShare(shares[sharePath], payload.value) {
          return AlreadyStored;
        }
        return Conflict;
      }
      shares := shares[sharePath := payload.value];
      var saved := PersistShares(nonce, tmp, fault);
      match saved
      case Written => return Stored;
      case Raised => return ServerError;
      case Crashed => return NoReply;
    }

    /** GET /shares/<path>. */
    method RetrieveShare(sharePath: string, commonName: Option<string>) returns (reply: Reply)
      requires HasFile()
      ensures reply == GetShare(Abstract(), sharePath, commonName)
    {
      if sharePath !in shares {
        return NotFound;
      }
      if !OwnerMatches(commonName, shares[sharePath].owner) {
        return Forbidden;
      }
      return Found(shares[sharePath]);
    }

    /** cryptofile.ensure at start: load the document, or create an empty one where there is no file.
        It starts exactly if the file can be loaded or, where there is none, be written. */
    method EnsureSharesFile(nonce: Bytes, tmp: string, fault: Fault) returns (r: StartResult)
      requires PlatformCorrect(platform) && |nonce| == NONCE_SIZE
      requires tmp !in files.files && tmp != path
      modifies this, files
      ensures r == Started <==> if path in old(files.files) then old(HasFile()) else fault == NoFault
      ensures r == Started ==> HasFile()
      ensures old(HasFile()) ==> r == Started && Abstract() == Reload(old(Abstract()))
      ensures path !in old(files.files) && r == Started ==> Abstract() == Store(map[], map[])
      ensures path in old(files.files) ==> files.files == old(files.files)
      ensures path in old(files.files) && !old(HasFile()) ==> r == StartFailed
      ensures path !in old(files.files) && r == Started ==> SealedUnder(platform, key1, files.files[path])
      ensures SameApartFrom(files.files, old(files.files), {path, tmp})
    {
      if path !in files.files {
        shares := map[];
        var saved := PersistShares(nonce, tmp, fault);
        match saved
        case Written => return Started;
        case Raised => return StartFailed;
        case Crashed => return Died;
      }
      var text := Decrypt(platform.cipher, key1, SHARES_FILE_PURPOSE, files.files[path]);
      if text.Failure? {
        return StartFailed;
      }
      var document := platform.loads(text.value);
      if document == None {
        return StartFailed;
      }
      shares := document.value;
      return Started;
    }
  }
}
