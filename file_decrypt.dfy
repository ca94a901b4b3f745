/** The `FileDecrypt` component (`src/components/FileDecrypt.tsx`): a CID is
    turned into a gateway URL, and the file there is fetched, decrypted with
    the password and downloaded, while a progress bar climbs through fixed
    stages. Unlike `FileRetrieval` it hands `decryptFile` the URL's last
    segment as it is, and renames the decrypted file once more itself. */
module DecryptView {
  import opened Base
  import opened Strings
  import opened Encryption
  import opened Effects
  import opened Gateway

  const InvalidCidToast := Toast(InvalidCid(false))

  /** The progress values of a complete, successful decryption, in order. */
  const SuccessProgress: seq<nat> := [10, 30, 50, 80, 100]

  /** The name of the download: the name `decryptFile` gave its result, with
      the first `.encrypted` removed once more. */
  function DownloadName(decryptedName: string): string {
    DecryptedName(decryptedName)
  }

  /** What a `handleDecrypt` call does once it has passed its guard: the
      events after the fetch and the progress values set after the first 10. */
  datatype Attempt = Attempt(events: seq<Event>, progress: seq<nat>)

  /** The `try`/`catch` of `handleDecrypt`, given what the fetch settled to:
      a rejection or a failed status stops before anything else is set;
      otherwise progress 30 and 50, then `decryptFile` on the URL's last
      segment, and on success progress 80, the download and progress 100. */
  function DecryptAttempt(c: CryptoProvider, fileUrl: string, password: string, response: FetchResult): (a: Attempt)
    ensures |a.events| >= 1 && a.events[|a.events| - 1].Toast?
    ensures a.progress != [] <==> response.Response? && IsOk(response.status)
  {
    match response
    case NetworkError(m) => Attempt([FailureToast(m)], [])
    case Response(status, body) =>
      if !IsOk(status) then Attempt([FailureToast(HttpErrorMessage(status))], [])
      else
        var name := UrlFileName(fileUrl);
        var rest := Delivery(DecryptFile(c, File(name, body, ""), password));
        Attempt([DecryptCall(name)] + rest.events, [30, 50] + rest.progress)
  }

  /** What follows `decryptFile`: the failure toast for its error, or
      progress 80, the download under `DownloadName` and progress 100. */
  function Delivery(decrypted: Result<File>): (a: Attempt)
    ensures |a.events| >= 1 && a.events[|a.events| - 1].Toast?
    ensures a.progress == [] <==> decrypted.Err?
  {
    match decrypted
    case Err(m) => Attempt([FailureToast(m)], [])
    case Ok(f) => Attempt([Download(DownloadName(f.name), f.content), Toast(Decrypted)], [80, 100])
  }

  /** The three ways an attempt can end: stopped by the fetch, stopped by
      `decryptFile`, or downloaded. */
  lemma AttemptShapes(c: CryptoProvider, fileUrl: string, password: string, response: FetchResult)
    ensures var a := DecryptAttempt(c, fileUrl, password, response);
            || (a.progress == [] && |a.events| == 1 && !a.events[0].Download?)
            || (a.progress == [30, 50] && |a.events| == 2 && !a.events[0].Download? && !a.events[1].Download?)
            || (a.progress == [30, 50, 80, 100] && |a.events| == 3 && a.events[1].Download?)
  {
    match response
    case NetworkError(_) =>
    case Response(status, body) =>
      if IsOk(status) {
        var d := DecryptFile(c, File(UrlFileName(fileUrl), body, ""), password);
        if d.Err? {
          assert !FailureToast(d.message).Download?;
        }
      }
  }

  /** The progress of every attempt runs through a prefix of the stages
      10, 30, 50, 80, 100, never going back; it reaches 100 exactly when the
      file was downloaded. */
  lemma ProgressFollowsStages(c: CryptoProvider, fileUrl: string, password: string, response: FetchResult)
    ensures var p := [10] + DecryptAttempt(c, fileUrl, password, response).progress;
            |p| <= |SuccessProgress| && p == SuccessProgress[..|p|] && NonDecreasing(p)
    ensures var a := DecryptAttempt(c, fileUrl, password, response);
            ([10] + a.progress == SuccessProgress) <==> (exists k :: 0 <= k < |a.events| && a.events[k].Download?)
  {
    var a := DecryptAttempt(c, fileUrl, password, response);
    AttemptShapes(c, fileUrl, password, response);
    StagePrefixes(a.progress);
    if a.progress != [30, 50, 80, 100] {
      assert forall k :: 0 <= k < |a.events| ==> !a.events[k].Download?;
    }
  }

  /** Each of the three progress tails, after the first 10, is a prefix of
      the stages and never goes back. */
  lemma StagePrefixes(tail: seq<nat>)
    requires tail == [] || tail == [30, 50] || tail == [30, 50, 80, 100]
    ensures var p := [10] + tail;
            |p| <= |SuccessProgress| && p == SuccessProgress[..|p|] && NonDecreasing(p)
    ensures [10] + tail == SuccessProgress <==> tail == [30, 50, 80, 100]
  {
    var p := [10] + tail;
    if tail == [] {
      assert p == [10];
    } else if tail == [30, 50] {
      assert p == [10, 30, 50];
    } else {
      assert p == [10, 30, 50, 80, 100];
    }
  }

  /** A failed status ends the attempt with the retrieval message before
      `decryptFile` is called and before progress moves past 10. */
  lemma FailedStatusStopsBeforeDecrypt(c: CryptoProvider, fileUrl: string, password: string, status: nat, body: seq<byte>)
    requires !IsOk(status)
    ensures DecryptAttempt(c, fileUrl, password, Response(status, body))
            == Attempt([Toast(DecryptionFailed(RetrievalFailure))], [])
  {
    HttpErrorReportedAsRetrieval(status);
  }

  /** Every failure of `decryptFile`, and every rejected fetch whose message
      does not mention `HTTP error`, is reported with the password message. */
  lemma OtherFailuresReportPassword(c: CryptoProvider, fileUrl: string, password: string, response: FetchResult)
    requires response.NetworkError? ==> !Contains(response.message, HttpErrorMarker)
    requires response.Response? && IsOk(response.status) ==>
               DecryptFile(c, File(UrlFileName(fileUrl), response.body, ""), password).Err?
    ensures var a := DecryptAttempt(c, fileUrl, password, response);
            response.NetworkError? || IsOk(response.status) ==>
              a.events[|a.events| - 1] == Toast(DecryptionFailed(PasswordFailure))
  {
    DecryptFailureReportedAsPassword();
  }

  /** `decryptFile` gets the URL's last segment (or `encrypted-file`) with no
      suffix added, and only after an ok response. */
  lemma DecryptGetsUrlSegment(c: CryptoProvider, fileUrl: string, password: string, response: FetchResult)
    ensures var a := DecryptAttempt(c, fileUrl, password, response);
            (exists k :: 0 <= k < |a.events| && a.events[k].DecryptCall?) <==> response.Response? && IsOk(response.status)
    ensures var a := DecryptAttempt(c, fileUrl, password, response);
            response.Response? && IsOk(response.status) ==> a.events[0] == DecryptCall(UrlFileName(fileUrl))
  {
    var a := DecryptAttempt(c, fileUrl, password, response);
    if response.Response? && IsOk(response.status) {
      assert a.events[0].DecryptCall?;
    }
  }

  /** The download name is the URL's segment with the first `.encrypted`
      removed twice: once inside `decryptFile`, once by the component. */
  lemma DownloadStripsTwice(c: CryptoProvider, fileUrl: string, password: string, status: nat, body: seq<byte>)
    requires IsOk(status)
    requires DecryptFile(c, File(UrlFileName(fileUrl), body, ""), password).Ok?
    ensures var a := DecryptAttempt(c, fileUrl, password, Response(status, body));
            |a.events| == 3 && a.events[1].Download?
            && a.events[1].name == DecryptedName(DecryptedName(UrlFileName(fileUrl)))
            && |a.events[1].name| + 2 * |EncryptedSuffix| >= |UrlFileName(fileUrl)|
  {
    var n := UrlFileName(fileUrl);
    assert |DecryptedName(n)| + |EncryptedSuffix| >= |n|;
    assert |DecryptedName(DecryptedName(n))| + |EncryptedSuffix| >= |DecryptedName(n)|;
  }

  /** Removing the first `.encrypted` twice from `name + ".encrypted" +
      ".encrypted" + rest`, where `name` holds none, leaves `name + rest`:
      exactly two go, wherever later ones stand. */
  lemma {:induction false} TwiceStripsTwo(name: string, rest: string)
    requires !Contains(name, EncryptedSuffix)
    ensures DecryptedName(DecryptedName(name + EncryptedSuffix + EncryptedSuffix + rest)) == name + rest
  {
    var tail := EncryptedSuffix + rest;
    DecryptedNameDropsFirst(name, tail);
    assert name + EncryptedSuffix + tail == name + EncryptedSuffix + EncryptedSuffix + rest;
    assert name + tail == name + EncryptedSuffix + rest;
    DecryptedNameDropsFirst(name, rest);
  }

  /** A name that was encrypted twice downloads under its original name. */
  lemma {:induction false} DoubleEncryptedName(name: string)
    requires !Contains(name, EncryptedSuffix)
    ensures DecryptedName(DecryptedName(name + EncryptedSuffix + EncryptedSuffix)) == name
  {
    TwiceStripsTwo(name, "");
    assert name + EncryptedSuffix + EncryptedSuffix + "" == name + EncryptedSuffix + EncryptedSuffix;
    assert name + "" == name;
  }

  /** At most two are removed: a name encrypted three times keeps one. */
  lemma {:induction false} TripleEncryptedNameKeepsOne(name: string)
    requires !Contains(name, EncryptedSuffix)
    ensures DecryptedName(DecryptedName(name + EncryptedSuffix + EncryptedSuffix + EncryptedSuffix))
            == name + EncryptedSuffix
  {
    TwiceStripsTwo(name, EncryptedSuffix);
  }

  /** End to end: a file encrypted with a password and stored under a CID is
      fetched back from the CID's gateway URL and downloads with its original
      bytes, named after the CID. */
  lemma {:induction false} UploadedFileDecrypted(c: CryptoProvider, file: File, password: string, iv: seq<byte>, cid: string)
    requires IsAesGcm(c) && |iv| == IvLength && GenerateKey(c, password).Ok?
    requires IsTrimmed(cid) && cid != "" && !Contains(cid, "/") && !Contains(cid, EncryptedSuffix)
    ensures EncryptedFile(c, file, password, iv).Ok?
    ensures var a := DecryptAttempt(c, GatewayUrl(cid), password, Response(200, EncryptedFile(c, file, password, iv).value.content));
            a == Attempt([DecryptCall(cid), Download(cid, file.content), Toast(Decrypted)], [30, 50, 80, 100])
  {
    var key := GenerateKey(c, password).value;
    var content := EncryptedFile(c, file, password, iv).value.content;
    assert content == Encode(Envelope(iv, c.seal(key, iv, file.content)));
    GatewayUrlFileName(cid);
    OpenSealedEnvelope(c, cid, "", file.content, password, iv);
    DecryptedNameWithoutSuffix(cid);
    OkAttempt(c, GatewayUrl(cid), password, 200, content, cid, file.content, cid);
  }

  /** The attempt for an ok response whose body decrypts. */
  lemma OkAttempt(c: CryptoProvider, fileUrl: string, password: string, status: nat,
                  body: seq<byte>, name: string, plain: seq<byte>, plainName: string)
    requires IsOk(status) && UrlFileName(fileUrl) == name
    requires DecryptFile(c, File(name, body, ""), password) == Ok(File(plainName, plain, ""))
    ensures DecryptAttempt(c, fileUrl, password, Response(status, body))
            == Attempt([DecryptCall(name), Download(DownloadName(plainName), plain), Toast(Decrypted)], [30, 50, 80, 100])
  {
    var rest := Delivery(DecryptFile(c, File(name, body, ""), password));
    assert rest.events == [Download(DownloadName(plainName), plain), Toast(Decrypted)];
    assert rest.progress == [80, 100];
    assert [DecryptCall(name)] + rest.events == [DecryptCall(name), Download(DownloadName(plainName), plain), Toast(Decrypted)];
    assert [30, 50] + rest.progress == [30, 50, 80, 100];
  }

  /** The component's state and what it has done so far. */
  class FileDecrypt {
    var cid: string
    var fileUrl: string
    var password: string
    var isDecrypting: bool
    var progress: nat
    /** Every value `progress` was set to, oldest first. */
    var progressHistory: seq<nat>
    /** `setTimeout(() => setProgress(0), 2000)` calls not yet fired. */
    var pendingResets: nat
    /** Every observable effect, oldest first. */
    var trace: seq<Event>

    /** The bar shows the last value progress was set to. */
    ghost predicate ProgressShown()
      reads this
    {
      progressHistory != [] ==> progress == progressHistory[|progressHistory| - 1]
    }

    /** Between two handler calls no decryption is in progress. */
    ghost predicate Valid()
      reads this
    {
      !isDecrypting && ProgressShown()
    }

    constructor ()
      ensures Valid()
      ensures cid == "" && fileUrl == "" && password == "" && progress == 0
      ensures progressHistory == [] && pendingResets == 0 && trace == []
    {
      cid, fileUrl, password := "", "", "";
      isDecrypting := false;
      progress, progressHistory, pendingResets := 0, [], 0;
      trace := [];
    }

    /** `setCid` from the input's `onChange`. */
    method SetCid(value: string)
      modifies this
      ensures cid == value
      ensures fileUrl == old(fileUrl) && password == old(password) && isDecrypting == old(isDecrypting)
      ensures progress == old(progress) && progressHistory == old(progressHistory)
      ensures pendingResets == old(pendingResets) && trace == old(trace)
    {
      cid := value;
    }

    /** `setPassword` from the input's `onChange`. */
    method SetPassword(value: string)
      modifies this
      ensures password == value
      ensures cid == old(cid) && fileUrl == old(fileUrl) && isDecrypting == old(isDecrypting)
      ensures progress == old(progress) && progressHistory == old(progressHistory)
      ensures pendingResets == old(pendingResets) && trace == old(trace)
    {
      password := value;
    }

    /** `handleRetrieve()`: a CID blank after trimming is refused with a
        toast and leaves `fileUrl` alone; otherwise `fileUrl` becomes the
        gateway URL of the trimmed CID. */
    method HandleRetrieve()
      modifies this`fileUrl, this`trace
      ensures AllWhitespace(cid) ==> fileUrl == old(fileUrl) && trace == old(trace) + [InvalidCidToast]
      ensures !AllWhitespace(cid) ==> fileUrl == GatewayUrl(cid) && trace == old(trace)
    {
      if Trim(cid) == "" {
        trace := trace + [InvalidCidToast];
        return;
      }
      fileUrl := GatewayUrl(cid);
    }

    /** `handleDecrypt()`, with `fetch` passed in: without a URL or a password
        only a toast; otherwise progress 10, one fetch of `fileUrl`, then
        `DecryptAttempt`; at the end `isDecrypting` is false again and a reset
        of the progress bar is scheduled. */
    method HandleDecrypt(c: CryptoProvider, fetch: string -> FetchResult)
      requires Valid()
      modifies this
      ensures Valid()
      ensures cid == old(cid) && fileUrl == old(fileUrl) && password == old(password)
      ensures fileUrl == "" || password == "" ==>
                && trace == old(trace) + [Toast(MissingInformation)]
                && progress == old(progress) && progressHistory == old(progressHistory)
                && pendingResets == old(pendingResets)
      ensures fileUrl != "" && password != "" ==>
                var a := DecryptAttempt(c, fileUrl, password, fetch(fileUrl));
                && trace == old(trace) + [Fetch(fileUrl)] + a.events
                && progressHistory == old(progressHistory) + [10] + a.progress
                && pendingResets == old(pendingResets) + 1
    {
      if fileUrl == "" || password == "" {
        trace := trace + [Toast(MissingInformation)];
        return;
      }
      isDecrypting := true;
      progress, progressHistory := 10, progressHistory + [10];
      var response := fetch(fileUrl);
      trace := trace + [Fetch(fileUrl)];
      Settle(c, response);
      isDecrypting := false;
      pendingResets := pendingResets + 1;
    }

    /** The `try`/`catch` of `handleDecrypt` once the fetch has settled: a
        rejection or a failed status goes straight to the failure toast. */
    method Settle(c: CryptoProvider, response: FetchResult)
      requires ProgressShown()
      modifies this
      ensures ProgressShown()
      ensures cid == old(cid) && fileUrl == old(fileUrl) && password == old(password)
      ensures isDecrypting == old(isDecrypting) && pendingResets == old(pendingResets)
      ensures trace == old(trace) + DecryptAttempt(c, fileUrl, password, response).events
      ensures progressHistory == old(progressHistory) + DecryptAttempt(c, fileUrl, password, response).progress
    {
      if response.NetworkError? {
        trace := trace + [FailureToast(response.message)];
      } else if !IsOk(response.status) {
        trace := trace + [FailureToast(HttpErrorMessage(response.status))];
      } else {
        ghost var name := UrlFileName(fileUrl);
        ghost var rest := Delivery(DecryptFile(c, File(name, response.body, ""), password));
        DecryptResponse(c, response.body);
        AppendAssociates(old(trace), [DecryptCall(name)], rest.events);
        AppendAssociates(old(progressHistory), [30, 50], rest.progress);
      }
    }

    /** The part of the `try` block after an ok response: progress 30, the
        name from the URL, progress 50, `decryptFile`, and then either the
        failure toast or progress 80, the download and progress 100. */
    method DecryptResponse(c: CryptoProvider, body: seq<byte>)
      requires ProgressShown()
      modifies this
      ensures ProgressShown()
      ensures cid == old(cid) && fileUrl == old(fileUrl) && password == old(password)
      ensures isDecrypting == old(isDecrypting) && pendingResets == old(pendingResets)
      ensures var name := UrlFileName(fileUrl);
              var rest := Delivery(DecryptFile(c, File(name, body, ""), password));
              && trace == old(trace) + [DecryptCall(name)] + rest.events
              && progressHistory == old(progressHistory) + [30, 50] + rest.progress
    {
      progress, progressHistory := 30, progressHistory + [30];
      var fileName := UrlFileName(fileUrl);
      progress, progressHistory := 50, progressHistory + [50];
      assert progressHistory == old(progressHistory) + [30, 50];
      trace := trace + [DecryptCall(fileName)];
      var decryptedFile := DecryptFile(c, File(fileName, body, ""), password);
      Deliver(decryptedFile);
    }

    /** What follows `decryptFile`, as `Delivery` says. */
    method Deliver(decrypted: Result<File>)
      requires ProgressShown()
      modifies this
      ensures ProgressShown()
      ensures cid == old(cid) && fileUrl == old(fileUrl) && password == old(password)
      ensures isDecrypting == old(isDecrypting) && pendingResets == old(pendingResets)
      ensures trace == old(trace) + Delivery(decrypted).events
      ensures progressHistory == old(progressHistory) + Delivery(decrypted).progress
    {
      if decrypted.Err? {
        trace := trace + [FailureToast(decrypted.message)];
      } else {
        progress, progressHistory := 80, progressHistory + [80];
        trace := trace + [Download(DownloadName(decrypted.value.name), decrypted.value.content)];
        progress, progressHistory := 100, progressHistory + [100];
        assert progressHistory == old(progressHistory) + [80, 100];
        trace := trace + [Toast(Decrypted)];
      }
    }

    /** A scheduled reset fires: the progress bar goes back to 0. */
    method ResetTimerFires()
      requires pendingResets > 0
      modifies this
      ensures progress == 0 && progressHistory == old(progressHistory) + [0]
      ensures pendingResets == old(pendingResets) - 1
      ensures cid == old(cid) && fileUrl == old(fileUrl) && password == old(password)
      ensures isDecrypting == old(isDecrypting) && trace == old(trace)
    {
      progress, progressHistory := 0, progressHistory + [0];
      pendingResets := pendingResets - 1;
    }
  }
}
