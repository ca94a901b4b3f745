/** The `FileUpload` component (`src/components/FileUpload.tsx`): a dropped
    file is optionally encrypted with a password and stored on IPFS through
    Pinata, while an interval timer pushes a progress bar towards 90 until
    the store call settles. */
module Upload {
  import opened Base
  import opened Strings
  import opened Encryption
  import opened Effects
  import opened Gateway

  const PasswordRequiredToast := Toast(PasswordRequired)
  const UploadFailedToast := Toast(UploadFailed)

  function UploadSuccessToast(useEncryption: bool): Event {
    Toast(Uploaded(useEncryption))
  }

  /** The highest value the interval timer moves the progress bar to. */
  const TickCeiling: nat := 90

  /** One tick of the interval: `Math.min(prev + 10, 90)`. */
  function ProgressTick(p: nat): (r: nat)
    ensures r <= TickCeiling
    ensures p <= TickCeiling ==> p <= r
    ensures p < TickCeiling ==> p < r
  {
    Min(p + 10, TickCeiling)
  }

  /** The progress after `n` ticks from `p`. */
  function Ticks(p: nat, n: nat): nat {
    if n == 0 then p else ProgressTick(Ticks(p, n - 1))
  }

  /** The values `n` ticks from `p` set, in order. */
  function TickHistory(p: nat, n: nat): (h: seq<nat>)
    ensures |h| == n
  {
    if n == 0 then [] else TickHistory(p, n - 1) + [Ticks(p, n)]
  }

  /** The `k`-th value the ticks set is the progress after `k + 1` ticks. */
  lemma {:induction false} TickHistoryAt(p: nat, n: nat)
    ensures forall k :: 0 <= k < n ==> TickHistory(p, n)[k] == Ticks(p, k + 1)
  {
    if n > 0 {
      TickHistoryAt(p, n - 1);
      assert TickHistory(p, n) == TickHistory(p, n - 1) + [Ticks(p, n)];
    }
  }

  /** From at most 90, `n` ticks climb by 10 each and stop at 90. */
  lemma {:induction false} TicksClosedForm(p: nat, n: nat)
    requires p <= TickCeiling
    ensures Ticks(p, n) == Min(p + 10 * n, TickCeiling)
  {
    if n > 0 {
      TicksClosedForm(p, n - 1);
    }
  }

  /** From at most 90 the ticks never go down and never pass 90. */
  lemma {:induction false} TickHistoryBounded(p: nat, n: nat)
    requires p <= TickCeiling
    ensures forall k :: 0 <= k < n ==> TickHistory(p, n)[k] <= TickCeiling
    ensures NonDecreasing([p] + TickHistory(p, n))
  {
    var q := [p] + TickHistory(p, n);
    TickHistoryAt(p, n);
    forall k | 0 <= k <= n ensures q[k] == Min(p + 10 * k, TickCeiling) {
      TicksClosedForm(p, k);
    }
  }

  /** An interval left running pulls a finished bar back from 100 to 90. */
  lemma LeakedTickPullsBack()
    ensures ProgressTick(100) == TickCeiling
  {
  }

  /** The file handed to the store: `encryptFile(file, password)` when
      encryption is on, the dropped file itself otherwise. */
  function UploadedFile(c: CryptoProvider, file: File, useEncryption: bool, password: string, iv: seq<byte>): (r: Result<File>)
    ensures !useEncryption ==> r == Ok(file)
    ensures useEncryption ==> r == EncryptedFile(c, file, password, iv)
    ensures r.Err? <==> useEncryption && GenerateKey(c, password).Err?
  {
    if useEncryption then EncryptedFile(c, file, password, iv) else Ok(file)
  }

  /** What an accepted `handleUpload` call does after `setProgress(0)`: its
      events, the progress values it sets, the hash it stores in `cid` if
      any, and whether it leaves its interval running. */
  datatype Attempt = Attempt(events: seq<Event>, progress: seq<nat>, cid: Option<string>, leaksInterval: bool)

  /** The `try`/`catch` of `handleUpload`, given the store and the number of
      interval ticks before the store settles: an encryption failure ends
      it at progress 10; otherwise one store call, the ticks, and then either
      the hash, `clearInterval` and progress 100, or the failure toast with
      the interval never cleared. */
  function UploadAttempt(c: CryptoProvider, file: File, useEncryption: bool, password: string, iv: seq<byte>,
                         store: File -> Result<string>, ticks: nat): (a: Attempt)
    ensures |a.events| == 1 <==> UploadedFile(c, file, useEncryption, password, iv).Err?
  {
    AttemptWith(UploadedFile(c, file, useEncryption, password, iv), useEncryption, store, ticks)
  }

  /** `UploadAttempt` once the file to upload (or the encryption error) is
      known. */
  function AttemptWith(prepared: Result<File>, useEncryption: bool, store: File -> Result<string>, ticks: nat): (a: Attempt)
    ensures |a.events| >= 1 && a.events[|a.events| - 1].Toast?
    ensures a.cid.Some? ==> !a.leaksInterval && |a.progress| > 0 && a.progress[|a.progress| - 1] == 100
  {
    match prepared
    case Err(_) => Attempt([UploadFailedToast], [10], None, false)
    case Ok(up) =>
      var stored := store(up);
      Attempt([Store(up), if stored.Ok? then UploadSuccessToast(useEncryption) else UploadFailedToast],
              EncryptionSteps(useEncryption) + StoreProgress(StoreStart(useEncryption), stored, ticks),
              if stored.Ok? then Some(stored.value) else None,
              stored.Err?)
  }

  /** The progress values set around a successful encryption. */
  function EncryptionSteps(useEncryption: bool): seq<nat> {
    if useEncryption then [10, 30] else []
  }

  /** Where the bar stands when the store is called. */
  function StoreStart(useEncryption: bool): nat {
    if useEncryption then 30 else 0
  }

  /** The progress values set from the store call on: the ticks from
      `start`, then 100 if the store returned a hash. */
  function StoreProgress(start: nat, stored: Result<string>, ticks: nat): seq<nat> {
    TickHistory(start, ticks) + (if stored.Ok? then [100] else [])
  }

  /** The files handed to the store, in order. */
  function StoreCalls(events: seq<Event>): (files: seq<File>)
    ensures |files| <= |events|
  {
    if events == [] then []
    else (if events[0].Store? then [events[0].file] else []) + StoreCalls(events[1..])
  }

  /** Every accepted call stores exactly the file `UploadedFile` prepared,
      once, unless its encryption failed; the hash it keeps is the store's. */
  lemma ExactlyOneStore(c: CryptoProvider, file: File, useEncryption: bool, password: string, iv: seq<byte>,
                        store: File -> Result<string>, ticks: nat)
    ensures var a := UploadAttempt(c, file, useEncryption, password, iv, store, ticks);
            var up := UploadedFile(c, file, useEncryption, password, iv);
            && (up.Ok? ==> StoreCalls(a.events) == [up.value])
            && (up.Err? ==> StoreCalls(a.events) == [])
            && (a.cid.Some? <==> up.Ok? && store(up.value).Ok?)
            && (a.cid.Some? ==> a.cid.value == store(up.value).value)
  {
    var a := UploadAttempt(c, file, useEncryption, password, iv, store, ticks);
    assert StoreCalls(a.events[1..]) == [] by {
      if |a.events| == 2 {
        assert a.events[1..][1..] == [];
      }
    }
  }

  /** The progress values an accepted call sets after 0 up to the moment
      the store settles: 10 and 30 around the encryption when it is on,
      then the ticks. */
  function ProgressBeforeStore(useEncryption: bool, ticks: nat): seq<nat> {
    EncryptionSteps(useEncryption) + TickHistory(StoreStart(useEncryption), ticks)
  }

  /** Up to the moment the store settles, the progress climbs from 0 and
      stays at or below 90. */
  lemma ProgressBeforeStoreBounded(useEncryption: bool, ticks: nat)
    ensures NonDecreasing([0] + ProgressBeforeStore(useEncryption, ticks))
    ensures forall k :: 0 <= k < |ProgressBeforeStore(useEncryption, ticks)| ==>
              ProgressBeforeStore(useEncryption, ticks)[k] <= TickCeiling
  {
    if useEncryption {
      var h := TickHistory(30, ticks);
      TickHistoryBounded(30, ticks);
      NonDecreasingPrepend(10, [30] + h);
      NonDecreasingPrepend(0, [10] + ([30] + h));
      assert [0] + ProgressBeforeStore(useEncryption, ticks) == [0] + ([10] + ([30] + h));
    } else {
      TickHistoryBounded(0, ticks);
      assert ProgressBeforeStore(useEncryption, ticks) == TickHistory(0, ticks);
    }
  }

  /** The progress of an accepted call starts at 0, never goes down, stays at
      or below 90 until the store has answered, and reaches 100 exactly when
      the store returned a hash. */
  lemma ProgressOfUpload(c: CryptoProvider, file: File, useEncryption: bool, password: string, iv: seq<byte>,
                         store: File -> Result<string>, ticks: nat)
    ensures var a := UploadAttempt(c, file, useEncryption, password, iv, store, ticks);
            NonDecreasing([0] + a.progress)
    ensures var a := UploadAttempt(c, file, useEncryption, password, iv, store, ticks);
            (a.progress != [] && a.progress[|a.progress| - 1] == 100) <==> a.cid.Some?
    ensures var a := UploadAttempt(c, file, useEncryption, password, iv, store, ticks);
            forall k :: 0 <= k < |a.progress| - 1 ==> a.progress[k] <= TickCeiling
  {
    var a := UploadAttempt(c, file, useEncryption, password, iv, store, ticks);
    var up := UploadedFile(c, file, useEncryption, password, iv);
    var before := ProgressBeforeStore(useEncryption, ticks);
    ProgressBeforeStoreBounded(useEncryption, ticks);
    if up.Err? {
      assert a.progress == [10];
    } else if store(up.value).Ok? {
      AppendAssociates(EncryptionSteps(useEncryption), TickHistory(StoreStart(useEncryption), ticks), [100]);
      assert a.progress == before + [100];
      NonDecreasingAppend([0] + before, 100);
      assert [0] + a.progress == [0] + before + [100];
    } else {
      assert StoreProgress(StoreStart(useEncryption), store(up.value), ticks) == TickHistory(StoreStart(useEncryption), ticks);
      assert a.progress == before;
    }
  }

  /** With encryption on, the stored file is the envelope of the dropped
      file, and decrypting it with the same password gives the dropped
      bytes back under the dropped name. */
  lemma StoredFileDecrypts(c: CryptoProvider, file: File, password: string, iv: seq<byte>)
    requires IsAesGcm(c) && |iv| == IvLength && GenerateKey(c, password).Ok?
    requires !Contains(file.name, EncryptedSuffix)
    ensures UploadedFile(c, file, true, password, iv).Ok?
    ensures DecryptFile(c, UploadedFile(c, file, true, password, iv).value, password)
            == Ok(File(file.name, file.content, ""))
  {
    EncryptDecryptRoundTrip(c, file, password, iv);
  }

  /** The component's state and what it has done so far. */
  class FileUpload {
    var file: Option<File>
    var cid: string
    var uploading: bool
    var progress: nat
    /** Every value `progress` was set to, oldest first. */
    var progressHistory: seq<nat>
    var useEncryption: bool
    var password: string
    /** Intervals started and never cleared. */
    var runningIntervals: nat
    /** Every observable effect, oldest first. */
    var trace: seq<Event>

    /** The bar shows the last value progress was set to. */
    ghost predicate ProgressShown()
      reads this
    {
      progressHistory != [] ==> progress == progressHistory[|progressHistory| - 1]
    }

    /** Between two handler calls no upload is in progress. */
    ghost predicate Valid()
      reads this
    {
      !uploading && ProgressShown()
    }

    constructor ()
      ensures Valid()
      ensures file == None && cid == "" && progress == 0 && progressHistory == []
      ensures !useEncryption && password == "" && runningIntervals == 0 && trace == []
    {
      file, cid, uploading := None, "", false;
      progress, progressHistory := 0, [];
      useEncryption, password := false, "";
      runningIntervals, trace := 0, [];
    }

    /** `onDrop(acceptedFiles)`: the first accepted file, or none when the
        drop was refused. */
    method OnDrop(acceptedFiles: seq<File>)
      modifies this
      requires Valid()
      ensures Valid()
      ensures |acceptedFiles| > 0 ==> file == Some(acceptedFiles[0])
      ensures |acceptedFiles| == 0 ==> file == None
      ensures cid == old(cid) && uploading == old(uploading) && progress == old(progress)
      ensures progressHistory == old(progressHistory) && useEncryption == old(useEncryption)
      ensures password == old(password) && runningIntervals == old(runningIntervals) && trace == old(trace)
    {
      file := if |acceptedFiles| > 0 then Some(acceptedFiles[0]) else None;
    }

    /** `setUseEncryption` from the encryption switch's `onCheckedChange`. */
    method SetUseEncryption(value: bool)
      modifies this
      requires Valid()
      ensures Valid()
      ensures useEncryption == value
      ensures file == old(file) && cid == old(cid) && uploading == old(uploading) && progress == old(progress)
      ensures progressHistory == old(progressHistory) && password == old(password)
      ensures runningIntervals == old(runningIntervals) && trace == old(trace)
    {
      useEncryption := value;
    }

    /** `setPassword` from the password input's `onChange`. */
    method SetPassword(value: string)
      modifies this
      requires Valid()
      ensures Valid()
      ensures password == value
      ensures file == old(file) && cid == old(cid) && uploading == old(uploading) && progress == old(progress)
      ensures progressHistory == old(progressHistory) && useEncryption == old(useEncryption)
      ensures runningIntervals == old(runningIntervals) && trace == old(trace)
    {
      password := value;
    }

    /** A tick of an interval that is still running. */
    method IntervalTick()
      requires runningIntervals > 0
      modifies this
      ensures progress == ProgressTick(old(progress)) && progressHistory == old(progressHistory) + [progress]
      ensures ProgressShown()
      ensures file == old(file) && cid == old(cid) && uploading == old(uploading)
      ensures useEncryption == old(useEncryption) && password == old(password)
      ensures runningIntervals == old(runningIntervals) && trace == old(trace)
    {
      var next := ProgressTick(progress);
      progress, progressHistory := next, progressHistory + [next];
    }

    /** The interval's callback, run `ticks` times while the store call is
        pending. */
    method TicksWhileStoring(ticks: nat)
      requires runningIntervals > 0 && ProgressShown()
      modifies this
      ensures ProgressShown()
      ensures progress == Ticks(old(progress), ticks)
      ensures progressHistory == old(progressHistory) + TickHistory(old(progress), ticks)
      ensures file == old(file) && cid == old(cid) && uploading == old(uploading)
      ensures useEncryption == old(useEncryption) && password == old(password)
      ensures runningIntervals == old(runningIntervals) && trace == old(trace)
    {
      var k := 0;
      while k < ticks
        invariant 0 <= k <= ticks
        invariant progress == Ticks(old(progress), k) && ProgressShown()
        invariant progressHistory == old(progressHistory) + TickHistory(old(progress), k)
        invariant file == old(file) && cid == old(cid) && uploading == old(uploading)
        invariant useEncryption == old(useEncryption) && password == old(password)
        invariant runningIntervals == old(runningIntervals) && trace == old(trace)
      {
        IntervalTick();
        k := k + 1;
      }
    }

    /** The `if (useEncryption)` block: progress 10, `encryptFile`, progress
        30; the file to upload is the dropped one when encryption is off. */
    method PrepareUpload(c: CryptoProvider, iv: seq<byte>) returns (r: Result<File>)
      requires file.Some? && |iv| == IvLength && ProgressShown()
      modifies this
      ensures ProgressShown()
      ensures file == old(file) && cid == old(cid) && uploading == old(uploading)
      ensures r == UploadedFile(c, file.value, useEncryption, password, iv)
      ensures !useEncryption ==> progress == old(progress) && progressHistory == old(progressHistory)
      ensures useEncryption && r.Err? ==> progress == 10 && progressHistory == old(progressHistory) + [10]
      ensures useEncryption && r.Ok? ==> progress == 30 && progressHistory == old(progressHistory) + [10, 30]
      ensures useEncryption == old(useEncryption) && password == old(password)
      ensures runningIntervals == old(runningIntervals) && trace == old(trace)
    {
      r := Ok(file.value);
      if useEncryption {
        progress, progressHistory := 10, progressHistory + [10];
        r := EncryptFile(c, file.value, password, iv);
        if r.Ok? {
          progress, progressHistory := 30, progressHistory + [30];
        }
      }
    }

    /** The interval is started, the store is called once and the interval
        ticks `ticks` times while it is pending; a hash is kept, the interval
        cleared and progress set to 100, while a failure only shows a toast
        and leaves the interval running. */
    method StoreWhileTicking(fileToUpload: File, store: File -> Result<string>, ticks: nat)
      requires ProgressShown()
      modifies this
      ensures ProgressShown()
      ensures var stored := store(fileToUpload);
              && trace == old(trace) + [Store(fileToUpload), if stored.Ok? then UploadSuccessToast(useEncryption) else UploadFailedToast]
              && progressHistory == old(progressHistory) + StoreProgress(old(progress), stored, ticks)
              && progress == (if stored.Ok? then 100 else Ticks(old(progress), ticks))
              && cid == (if stored.Ok? then stored.value else old(cid))
              && runningIntervals == old(runningIntervals) + (if stored.Ok? then 0 else 1)
      ensures file == old(file) && uploading == old(uploading)
      ensures useEncryption == old(useEncryption) && password == old(password)
    {
      runningIntervals := runningIntervals + 1;
      trace := trace + [Store(fileToUpload)];
      TicksWhileStoring(ticks);
      var ipfsHash := store(fileToUpload);
      if ipfsHash.Ok? {
        cid := ipfsHash.value;
        runningIntervals := runningIntervals - 1;
        AppendAssociates(old(progressHistory), TickHistory(old(progress), ticks), [100]);
        progress, progressHistory := 100, progressHistory + [100];
        trace := trace + [UploadSuccessToast(useEncryption)];
      } else {
        trace := trace + [UploadFailedToast];
      }
    }

    /** The `try`/`catch`/`finally` of `handleUpload`, once a file is
        selected and the password guard has passed: `uploading` is set for
        the call's duration, progress starts at 0, and the rest is
        `UploadAttempt`. */
    method UploadSelected(c: CryptoProvider, iv: seq<byte>, store: File -> Result<string>, ticks: nat)
      requires file.Some? && |iv| == IvLength && ProgressShown()
      modifies this
      ensures Valid()
      ensures file == old(file) && useEncryption == old(useEncryption) && password == old(password)
      ensures var a := UploadAttempt(c, file.value, useEncryption, password, iv, store, ticks);
              && trace == old(trace) + a.events
              && progressHistory == old(progressHistory) + [0] + a.progress
              && (a.cid.Some? ==> cid == a.cid.value)
              && (a.cid.None? ==> cid == old(cid))
              && runningIntervals == old(runningIntervals) + (if a.leaksInterval then 1 else 0)
    {
      uploading := true;
      progress, progressHistory := 0, progressHistory + [0];
      var prepared := PrepareUpload(c, iv);
      if prepared.Err? {
        trace := trace + [UploadFailedToast];
      } else {
        ghost var beforeStore := progressHistory;
        assert beforeStore == old(progressHistory) + [0] + EncryptionSteps(useEncryption);
        assert progress == StoreStart(useEncryption);
        StoreWhileTicking(prepared.value, store, ticks);
        AppendAssociates(old(progressHistory) + [0], EncryptionSteps(useEncryption),
                         StoreProgress(StoreStart(useEncryption), store(prepared.value), ticks));
      }
      uploading := false;
    }

    /** `handleUpload()`, with the nonce, the store (`uploadToPinata`) and
        the number of interval ticks before the store settles passed in.
        With no file nothing happens; with encryption on and no password
        only a toast; otherwise `UploadSelected`. */
    method HandleUpload(c: CryptoProvider, iv: seq<byte>, store: File -> Result<string>, ticks: nat)
      requires Valid() && |iv| == IvLength
      modifies this
      ensures Valid()
      ensures file == old(file) && useEncryption == old(useEncryption) && password == old(password)
      ensures file.None? ==>
                && cid == old(cid) && progress == old(progress) && progressHistory == old(progressHistory)
                && runningIntervals == old(runningIntervals) && trace == old(trace)
      ensures file.Some? && useEncryption && password == "" ==>
                && cid == old(cid) && progress == old(progress) && progressHistory == old(progressHistory)
                && runningIntervals == old(runningIntervals) && trace == old(trace) + [PasswordRequiredToast]
      ensures file.Some? && (!useEncryption || password != "") ==>
                var a := UploadAttempt(c, file.value, useEncryption, password, iv, store, ticks);
                && trace == old(trace) + a.events
                && progressHistory == old(progressHistory) + [0] + a.progress
                && (a.cid.Some? ==> cid == a.cid.value)
                && (a.cid.None? ==> cid == old(cid))
                && runningIntervals == old(runningIntervals) + (if a.leaksInterval then 1 else 0)
    {
      if file.None? {
        return;
      }
      if useEncryption && password == "" {
        trace := trace + [PasswordRequiredToast];
        return;
      }
      UploadSelected(c, iv, store, ticks);
    }
  }
}
