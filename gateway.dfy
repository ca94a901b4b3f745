/** What the two retrieval handlers (`FileRetrieval.tsx`, `FileDecrypt.tsx`)
    share: the Pinata gateway URL, the outcome of `fetch`, the file name
    taken from the URL, and the rule that turns a caught error into the
    message the user sees. */
module Gateway {
  import opened Base
  import opened Strings
  import opened Effects
  import Encryption

  const GatewayPrefix := "https://gateway.pinata.cloud/ipfs/"
  const FallbackName := "encrypted-file"
  const HttpErrorMarker := "HTTP error"

  /** The toast of the `catch` block for an error with this message. */
  function FailureToast(message: string): Event {
    Toast(DecryptionFailed(ClassifyFailure(message)))
  }

  /** The gateway URL `handleRetrieve` stores for a CID. */
  function GatewayUrl(cid: string): (r: string)
    ensures |r| == |GatewayPrefix| + |Trim(cid)|
    ensures r[..|GatewayPrefix|] == GatewayPrefix && r[|GatewayPrefix|..] == Trim(cid)
  {
    GatewayPrefix + Trim(cid)
  }

  /** What `fetch(url)` settles to: a rejection (network failure) with its
      message, or a response with its status and body. */
  datatype FetchResult = NetworkError(message: string) | Response(status: nat, body: seq<byte>)

  /** `response.ok`: a status in the range 200-299. */
  predicate IsOk(status: nat) {
    200 <= status <= 299
  }

  /** The message thrown for a response that is not ok. */
  function HttpErrorMessage(status: nat): (r: string)
    ensures OccursAt(r, HttpErrorMarker, 0)
    ensures EndsWith(r, NatToString(status))
  {
    "HTTP error! status: " + NatToString(status)
  }

  /** `fileUrl.split('/').pop() || 'encrypted-file'`: the last `/`-segment of
      the URL, or the fallback name when that segment is empty. */
  function UrlFileName(url: string): (r: string)
    ensures r != "" && !Contains(r, "/")
    ensures LastPiece(url, "/") != "" ==> r == LastPiece(url, "/") && EndsWith(url, r)
    ensures LastPiece(url, "/") == "" ==> r == FallbackName
  {
    LastPieceIsSuffix(url, "/");
    FallbackNameHasNoSlash();
    var last := LastPiece(url, "/");
    if last != "" then last else FallbackName
  }

  lemma FallbackNameHasNoSlash()
    ensures !Contains(FallbackName, "/")
  {
    assert Lacks(FallbackName, '/');
    MissingFirstCharacter(FallbackName, "/");
  }

  /** How a caught error is explained: as a retrieval problem when its
      message mentions `HTTP error`, as a password problem otherwise. */
  function ClassifyFailure(message: string): (f: Failure)
    ensures f == RetrievalFailure <==> Contains(message, HttpErrorMarker)
    ensures f == PasswordFailure <==> !Contains(message, HttpErrorMarker)
  {
    if Contains(message, HttpErrorMarker) then RetrievalFailure else PasswordFailure
  }

  /** A failed status is always reported as a retrieval problem. */
  lemma HttpErrorReportedAsRetrieval(status: nat)
    ensures ClassifyFailure(HttpErrorMessage(status)) == RetrievalFailure
  {
    var m := HttpErrorMessage(status);
    assert m[0..|HttpErrorMarker|] == HttpErrorMarker;
    assert OccursAt(m, HttpErrorMarker, 0);
  }

  predicate Lacks(s: string, c: char) {
    forall k :: 0 <= k < |s| ==> s[k] != c
  }

  lemma LacksAppend(a: string, b: string, c: char)
    requires Lacks(a, c) && Lacks(b, c)
    ensures Lacks(a + b, c)
  {
  }

  /** A string without the first character of `pat` does not contain `pat`. */
  lemma MissingFirstCharacter(s: string, pat: string)
    requires |pat| > 0 && Lacks(s, pat[0])
    ensures !Contains(s, pat)
  {
    forall i: nat | i <= |s| ensures !OccursAt(s, pat, i) {
      if i + |pat| <= |s| {
        assert s[i..i + |pat|][0] == s[i];
      }
    }
  }

  /** Every failure of `decryptFile` is reported as a password problem: its
      one message has no `H`, so it cannot mention `HTTP error`. */
  lemma DecryptFailureReportedAsPassword()
    ensures ClassifyFailure(Encryption.DecryptFailedMessage) == PasswordFailure
  {
    DecryptMessageLacksH();
    MissingFirstCharacter(Encryption.DecryptFailedMessage, HttpErrorMarker);
  }

  lemma DecryptMessageLacksH()
    ensures Lacks(Encryption.DecryptFailedMessage, 'H')
  {
    var a, b := "Failed to decrypt file. ", "Please check your password.";
    assert Lacks(a, 'H') && Lacks(b, 'H');
    LacksAppend(a, b, 'H');
  }

  /** A string that does not contain `[c]` has no character `c`. */
  lemma LacksChar(s: string, c: char)
    requires !Contains(s, [c])
    ensures Lacks(s, c)
  {
    forall k | 0 <= k < |s| ensures s[k] != c {
      assert !OccursAt(s, [c], k);
      assert s[k..k + 1] == [s[k]];
    }
  }

  /** A character `c` of `s` lies before any suffix of `s` that lacks `c`. */
  lemma CharBeforeSuffix(s: string, t: string, c: char, i: nat)
    requires EndsWith(s, t) && Lacks(t, c) && i < |s| && s[i] == c
    ensures i < |s| - |t|
  {
  }

  /** The gateway URL of a trimmed CID without `/` ends in a segment that is
      exactly that CID: the name both handlers give the fetched file. */
  lemma {:induction false} GatewayUrlFileName(cid: string)
    requires IsTrimmed(cid) && cid != "" && !Contains(cid, "/")
    ensures UrlFileName(GatewayUrl(cid)) == cid
  {
    TrimmedUnchanged(cid);
    var front := GatewayPrefix[..|GatewayPrefix| - 1];
    assert GatewayPrefix == front + "/";
    assert GatewayUrl(cid) == front + "/" + cid;
    LastSegment(front, cid);
  }

  /** The name taken from `front + "/" + segment` is `segment` whenever
      that holds no `/` and is not empty. */
  lemma {:induction false} LastSegment(front: string, segment: string)
    requires segment != "" && !Contains(segment, "/")
    ensures UrlFileName(front + "/" + segment) == segment
  {
    var url := front + "/" + segment;
    assert url[|front|] == '/';
    assert OccursAt(url, "/", |front|) by {
      assert url[|front|..|front| + 1] == "/";
    }
    LastPieceIsSuffix(url, "/");
    LastPieceFollowsSeparator(url, "/");
    var last := LastPiece(url, "/");
    LacksChar(last, '/');
    LacksChar(segment, '/');
    assert EndsWith(url, segment) by {
      assert url[|url| - |segment|..] == segment;
    }
    assert url[|url| - |last| - 1] == '/' by {
      assert url[|url| - |last| - 1..] == "/" + last;
    }
    CharBeforeSuffix(url, segment, '/', |url| - |last| - 1);
    CharBeforeSuffix(url, last, '/', |front|);
    assert last == url[|url| - |last|..] == segment;
  }
}
