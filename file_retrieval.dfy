/** The `FileRetrieval` component (`src/components/FileRetrieval.tsx`): a CID
    or gateway URL is typed in, turned into a gateway URL, and the file there
    is fetched, decrypted with the password and downloaded. */
module Retrieval {
  import opened Base
  import opened Strings
  import opened Encryption
  import opened Effects
  import opened Gateway

  const IpfsMarker := "ipfs/"
  const InvalidCidToast := Toast(InvalidCid(true))

  /** The CID `handleUrlInput` extracts from its input: the text after the
      last `ipfs/`, provided the input holds one and that text is not empty. */
  function CidFromUrl(value: string): (r: Option<string>)
    ensures r.Some? <==> Contains(value, IpfsMarker) && LastPiece(value, IpfsMarker) != ""
    ensures r.Some? ==> r.value != "" && !Contains(r.value, IpfsMarker)
    ensures r.Some? ==> EndsWith(value, IpfsMarker + r.value)
  {
    if Contains(value, IpfsMarker) then
      LastPieceIsSuffix(value, IpfsMarker);
      LastPieceFollowsSeparator(value, IpfsMarker);
      var tail := LastPiece(value, IpfsMarker);
      if tail != "" then Some(tail) else None
    else None
  }

  /** The name the fetched bytes get before `decryptFile`: the URL's file
      name, with `.encrypted` appended unless it already ends with it. */
  function RetrievalFileName(url: string): (r: string)
    ensures EndsWith(r, EncryptedSuffix)
    ensures EndsWith(UrlFileName(url), EncryptedSuffix) ==> r == UrlFileName(url)
    ensures !EndsWith(UrlFileName(url), EncryptedSuffix) ==> r == EncryptedName(UrlFileName(url))
  {
    var name := UrlFileName(url);
    if EndsWith(name, EncryptedSuffix) then name else EncryptedName(name)
  }

  /** What the `try`/`catch` of `handleDecrypt` does once a fetch has been
      issued, given what the fetch settled to. */
  function DecryptOutcome(c: CryptoProvider, fileUrl: string, password: string, response: FetchResult): (r: seq<Event>)
    ensures |r| >= 1 && r[|r| - 1].Toast?
    ensures |r| > 1 <==> response.Response? && IsOk(response.status)
  {
    match response
    case NetworkError(m) => [FailureToast(m)]
    case Response(status, body) =>
      if !IsOk(status) then [FailureToast(HttpErrorMessage(status))]
      else
        var name := RetrievalFileName(fileUrl);
        [DecryptCall(name)] + DecryptedEvents(DecryptFile(c, File(name, body, ""), password))
  }

  /** What follows `decryptFile`: the failure toast for its error, or the
      download under the name it gave and the success toast. */
  function DecryptedEvents(decrypted: Result<File>): (r: seq<Event>)
    ensures |r| >= 1 && r[|r| - 1].Toast?
    ensures r[0].Download? <==> decrypted.Ok?
  {
    match decrypted
    case Err(m) => [FailureToast(m)]
    case Ok(f) => [Download(f.name, f.content), Toast(Decrypted)]
  }

  /** `decryptFile` is called only after an ok response, and then first,
      with a name that ends with `.encrypted`. */
  lemma DecryptOnlyAfterOkResponse(c: CryptoProvider, fileUrl: string, password: string, response: FetchResult)
    ensures var out := DecryptOutcome(c, fileUrl, password, response);
            (exists k :: 0 <= k < |out| && out[k].DecryptCall?) <==> response.Response? && IsOk(response.status)
    ensures var out := DecryptOutcome(c, fileUrl, password, response);
            response.Response? && IsOk(response.status) ==>
              out[0] == DecryptCall(RetrievalFileName(fileUrl)) && EndsWith(out[0].name, EncryptedSuffix)
  {
    var out := DecryptOutcome(c, fileUrl, password, response);
    if response.Response? && IsOk(response.status) {
      assert out[0].DecryptCall?;
    }
  }

  /** A response that is not ok ends the attempt with the retrieval message,
      whatever the cipher and the password: nothing was decrypted. */
  lemma FailedStatusReportsRetrieval(c: CryptoProvider, other: CryptoProvider, fileUrl: string,
                                     password: string, otherPassword: string, status: nat, body: seq<byte>)
    requires !IsOk(status)
    ensures DecryptOutcome(c, fileUrl, password, Response(status, body))
            == [Toast(DecryptionFailed(RetrievalFailure))]
            == DecryptOutcome(other, fileUrl, otherPassword, Response(status, body))
  {
    HttpErrorReportedAsRetrieval(status);
  }

  /** Every failure of `decryptFile` is reported with the password message. */
  lemma DecryptFailureReportsPassword(c: CryptoProvider, fileUrl: string, password: string, status: nat, body: seq<byte>)
    requires IsOk(status)
    requires DecryptFile(c, File(RetrievalFileName(fileUrl), body, ""), password).Err?
    ensures DecryptOutcome(c, fileUrl, password, Response(status, body))
            == [DecryptCall(RetrievalFileName(fileUrl)), Toast(DecryptionFailed(PasswordFailure))]
  {
    DecryptFailureReportedAsPassword();
  }

  /** A rejected `fetch` (a network failure, whose message does not mention
      `HTTP error`) is reported with the password message, not the
      retrieval one. */
  lemma NetworkFailureReportsPassword(c: CryptoProvider, fileUrl: string, password: string, message: string)
    requires !Contains(message, HttpErrorMarker)
    ensures DecryptOutcome(c, fileUrl, password, NetworkError(message))
            == [Toast(DecryptionFailed(PasswordFailure))]
  {
  }

  /** The downloaded name is the URL's last segment when that segment holds
      no `.encrypted`: the suffix appended before `decryptFile` is the one it
      strips. */
  lemma {:induction false} DownloadNameIsUrlSegment(c: CryptoProvider, fileUrl: string, password: string, status: nat, body: seq<byte>)
    requires IsOk(status)
    requires !Contains(UrlFileName(fileUrl), EncryptedSuffix)
    requires DecryptFile(c, File(RetrievalFileName(fileUrl), body, ""), password).Ok?
    ensures var out := DecryptOutcome(c, fileUrl, password, Response(status, body));
            |out| == 3 && out[1].Download? && out[1].name == UrlFileName(fileUrl)
  {
    var n := UrlFileName(fileUrl);
    NoSuffixNotEnding(n);
    assert RetrievalFileName(fileUrl) == EncryptedName(n);
    var f := DecryptFile(c, File(EncryptedName(n), body, ""), password).value;
    NameRoundTrip(n);
    assert f.name == n;
    OkResponseOutcome(c, fileUrl, password, status, body, EncryptedName(n), f.content, n);
  }

  /** End to end: a file encrypted with a password, stored under a CID and
      fetched back from that CID's gateway URL, decrypts to the original bytes
      under the same password. The download is named after the CID, not after
      the original file, since the gateway URL does not carry that name. */
  lemma {:induction false} UploadedFileRetrieved(c: CryptoProvider, file: File, password: string, iv: seq<byte>, cid: string)
    requires IsAesGcm(c) && |iv| == IvLength && GenerateKey(c, password).Ok?
    requires IsTrimmed(cid) && cid != "" && !Contains(cid, "/") && !Contains(cid, EncryptedSuffix)
    ensures EncryptedFile(c, file, password, iv).Ok?
    ensures DecryptOutcome(c, GatewayUrl(cid), password, Response(200, EncryptedFile(c, file, password, iv).value.content))
            == [DecryptCall(cid + EncryptedSuffix), Download(cid, file.content), Toast(Decrypted)]
  {
    var content := EncryptedFile(c, file, password, iv).value.content;
    RetrievalNameOfCid(cid);
    EncryptedContentDecrypts(c, file, password, iv, cid);
    OkResponseOutcome(c, GatewayUrl(cid), password, 200, content, cid + EncryptedSuffix, file.content, cid);
  }

  /** The bytes `encryptFile` produced, under a name `name + ".encrypted"`,
      decrypt to the original bytes under `name`. */
  lemma {:induction false} EncryptedContentDecrypts(c: CryptoProvider, file: File, password: string,
                                                    iv: seq<byte>, name: string)
    requires IsAesGcm(c) && |iv| == IvLength && GenerateKey(c, password).Ok?
    requires !Contains(name, EncryptedSuffix)
    ensures EncryptedFile(c, file, password, iv).Ok?
    ensures DecryptFile(c, File(name + EncryptedSuffix, EncryptedFile(c, file, password, iv).value.content, ""), password)
            == Ok(File(name, file.content, ""))
  {
    var key := GenerateKey(c, password).value;
    var content := Encode(Envelope(iv, c.seal(key, iv, file.content)));
    assert EncryptedFile(c, file, password, iv).value.content == content;
    OpenSealedEnvelope(c, name + EncryptedSuffix, "", file.content, password, iv);
    NameRoundTrip(name);
    assert EncryptedName(name) == name + EncryptedSuffix;
  }

  /** The events of an ok response whose body decrypts. */
  lemma OkResponseOutcome(c: CryptoProvider, fileUrl: string, password: string, status: nat,
                          body: seq<byte>, name: string, plain: seq<byte>, plainName: string)
    requires IsOk(status) && RetrievalFileName(fileUrl) == name
    requires DecryptFile(c, File(name, body, ""), password) == Ok(File(plainName, plain, ""))
    ensures DecryptOutcome(c, fileUrl, password, Response(status, body))
            == [DecryptCall(name), Download(plainName, plain), Toast(Decrypted)]
  {
  }

  /** The name the fetched bytes get when the URL is a CID's gateway URL. */
  lemma RetrievalNameOfCid(cid: string)
    requires IsTrimmed(cid) && cid != "" && !Contains(cid, "/") && !Contains(cid, EncryptedSuffix)
    ensures RetrievalFileName(GatewayUrl(cid)) == cid + EncryptedSuffix
  {
    GatewayUrlFileName(cid);
    NoSuffixNotEnding(cid);
  }

  lemma NoSuffixNotEnding(s: string)
    requires !Contains(s, EncryptedSuffix)
    ensures !EndsWith(s, EncryptedSuffix)
  {
    if EndsWith(s, EncryptedSuffix) {
      assert OccursAt(s, EncryptedSuffix, |s| - |EncryptedSuffix|);
    }
  }

  /** The component's state and what it has done so far. */
  class FileRetrieval {
    var cid: string
    var fileUrl: string
    var password: string
    var isEncrypted: bool
    var isDecrypting: bool
    /** Every observable effect, oldest first. */
    var trace: seq<Event>

    /** Between two handler calls no decryption is in progress. */
    ghost predicate Valid()
      reads this
    {
      !isDecrypting
    }

    constructor ()
      ensures Valid()
      ensures cid == "" && fileUrl == "" && password == "" && !isEncrypted && trace == []
    {
      cid, fileUrl, password := "", "", "";
      isEncrypted, isDecrypting := false, false;
      trace := [];
    }

    /** `setPassword` from the password input's `onChange`: only the
        password changes. */
    method SetPassword(value: string)
      modifies this`password
      ensures password == value
    {
      password := value;
    }

    /** `handleRetrieve(cidToUse)`: a CID blank after trimming is refused
        with a toast and leaves `fileUrl` alone; otherwise `fileUrl` becomes
        the gateway URL of the trimmed CID. */
    method HandleRetrieve(cidToUse: string)
      modifies this`fileUrl, this`trace
      ensures AllWhitespace(cidToUse) ==> fileUrl == old(fileUrl) && trace == old(trace) + [InvalidCidToast]
      ensures !AllWhitespace(cidToUse) ==> fileUrl == GatewayUrl(cidToUse) && trace == old(trace)
    {
      if Trim(cidToUse) == "" {
        trace := trace + [InvalidCidToast];
        return;
      }
      fileUrl := GatewayUrl(cidToUse);
    }

    /** `handleUrlInput(value)`: the CID field shows the input; when it holds
        `ipfs/` followed by a non-empty tail, the tail becomes the CID and is
        retrieved at once. */
    method HandleUrlInput(value: string)
      modifies this`cid, this`fileUrl, this`trace
      ensures CidFromUrl(value).None? ==> cid == value && fileUrl == old(fileUrl) && trace == old(trace)
      ensures CidFromUrl(value).Some? ==>
                var tail := CidFromUrl(value).value;
                && cid == tail
                && (AllWhitespace(tail) ==> fileUrl == old(fileUrl) && trace == old(trace) + [InvalidCidToast])
                && (!AllWhitespace(tail) ==> fileUrl == GatewayUrl(tail) && trace == old(trace))
    {
      cid := value;
      if Contains(value, IpfsMarker) {
        var cidFromUrl := LastPiece(value, IpfsMarker);
        if cidFromUrl != "" {
          cid := cidFromUrl;
          HandleRetrieve(cidFromUrl);
        }
      }
    }

    /** `handleDecrypt()`, with `fetch` passed in: without a URL or a password
        only a toast; otherwise one fetch of `fileUrl`, then `DecryptOutcome`,
        and `isDecrypting` is false again at the end. */
    method HandleDecrypt(c: CryptoProvider, fetch: string -> FetchResult)
      requires Valid()
      modifies this
      ensures Valid()
      ensures cid == old(cid) && fileUrl == old(fileUrl) && password == old(password)
      ensures isEncrypted == old(isEncrypted)
      ensures fileUrl == "" || password == "" ==> trace == old(trace) + [Toast(MissingInformation)]
      ensures fileUrl != "" && password != "" ==>
                trace == old(trace) + [Fetch(fileUrl)] + DecryptOutcome(c, fileUrl, password, fetch(fileUrl))
    {
      if fileUrl == "" || password == "" {
        trace := trace + [Toast(MissingInformation)];
        return;
      }
      isDecrypting := true;
      var response := fetch(fileUrl);
      trace := trace + [Fetch(fileUrl)];
      ghost var fetched := trace;
      var failure: Option<string> := None;
      if response.NetworkError? {
        failure := Some(response.message);
      } else if !IsOk(response.status) {
        failure := Some(HttpErrorMessage(response.status));
      } else {
        var fileName := RetrievalFileName(fileUrl);
        trace := trace + [DecryptCall(fileName)];
        var decrypted := DecryptFile(c, File(fileName, response.body, ""), password);
        if decrypted.Err? {
          failure := Some(decrypted.message);
        } else {
          trace := trace + [Download(decrypted.value.name, decrypted.value.content), Toast(Decrypted)];
        }
      }
      if failure.Some? {
        trace := trace + [FailureToast(failure.value)];
      }
      if response.Response? && IsOk(response.status) {
        ghost var name := RetrievalFileName(fileUrl);
        AppendAssociates(fetched, [DecryptCall(name)], DecryptedEvents(DecryptFile(c, File(name, response.body, ""), password)));
      }
      isDecrypting := false;
    }
  }
}
