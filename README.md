# MySecure core, modelled in Dafny

MySecure lets a user drop a file, optionally encrypt it under a password, and
store it on IPFS through Pinata. Later the file can be fetched back from the
Pinata gateway by its CID, decrypted with the same password and downloaded.
A help page and a MetaMask connect button complete the front end.

The model has one module per source file of the core, plus three small shared
modules:

| module | file | source |
|---|---|---|
| `Base` | `base.dfy` | bytes, files, `Option`, `Result`, monotone progress sequences |
| `Strings` | `strings.dfy` | the ECMAScript string methods the core calls: `includes`, `split`/`pop`, `replace`, `endsWith`, `trim`, `slice`, `toLowerCase` |
| `Effects` | `effects.dfy` | every toast the components show (title, text, variant) and the other observable effects |
| `Encryption` | `encryption.dfy` | `src/lib/encryption.ts` |
| `Gateway` | `gateway.dfy` | what `FileRetrieval.tsx` and `FileDecrypt.tsx` share: the gateway URL, the file name taken from a URL, the error classification |
| `Retrieval` | `file_retrieval.dfy` | `src/components/FileRetrieval.tsx` |
| `DecryptView` | `file_decrypt.dfy` | `src/components/FileDecrypt.tsx` |
| `Upload` | `file_upload.dfy` | `src/components/FileUpload.tsx` |
| `Help` | `help_faq.dfy` | `src/components/HelpFAQ.tsx` and the `FAQ`/`SupportTicket` types |
| `Wallet` | `wallet.dfy` | `src/components/MetaMaskAuth.tsx` |

`encryption.ts` computes values, so it becomes functions and lemmas. The
exception is the buffer assembly at lines 37-39: a zeroed
`new Uint8Array(...)` filled in place by two `set` calls. It stays an array
method (`CombineIvAndCiphertext`); `SetBytes` models `Uint8Array.set`
element by element.

Each React component becomes a `class`:

- Its `useState` variables are fields.
- Every handler is a method with a `modifies` clause.
- The effects the handler makes (toasts, `fetch`, `decryptFile`, downloads, `uploadToPinata`, `onConnect`, `window.open`) are appended to a `trace` field.
- Every value the progress bar is set to is appended to `progressHistory`.

Every handler is proved against a function of its inputs (`DecryptOutcome`,
`DecryptAttempt`, `UploadAttempt`, `ConnectEvents`, `Forwarded`). Lemmas then
state what the source promises about that function: round trips, which
message each failure gets, monotone progress, and exactly one store.

Web Crypto is a `CryptoProvider` made of three function values: `deriveKey`,
`seal` and `open`. The ghost predicate `IsAesGcm` holds the three properties
of AES-GCM the proofs rely on (NIST SP 800-38D, sections 7.1 and 7.2):

- opening what was sealed under the same key and a 96-bit nonce gives the plaintext back;
- the tag is 16 bytes;
- a ciphertext shorter than the tag never opens.

`Gateway.IsOk` is `response.ok` as the Fetch standard defines it, a status
from 200 to 299. What the handlers do with it is stated by
`FailedStatusReportsRetrieval`, `FailedStatusStopsBeforeDecrypt` and
`DecryptOnlyAfterOkResponse`.

The PBKDF2 parameters are constants of the model: salt `secure-salt`, 100000
iterations, SHA-256, a 256-bit AES-GCM key.

## Where the code differs from its design

The model follows the code in each of these cases.

- `decryptFile` renames with `name.replace('.encrypted', '')`. That removes the first occurrence of `.encrypted` wherever it stands, not only a trailing one.
  - The name round-trips only for names that hold no `.encrypted` at all (`NameRoundTrip`).
  - `a.encrypted.txt` encrypts to `a.encrypted.txt.encrypted`, which decrypts to `a.txt.encrypted` (`StripsFirstNotTrailing`).
- `decryptFile` turns every failure into the one message `Failed to decrypt file. Please check your password.`. This covers key derivation, a short input and a failed authentication. The components therefore never tell "not a valid encrypted file" apart from "wrong password".
- The retrieval handlers report a failed HTTP status with a fixed text that leaves out the status. A rejected `fetch` is a network failure whose message lacks `HTTP error`, so it is reported as a password problem (`NetworkFailureReportsPassword`).
- The downloaded file is named after the last segment of the gateway URL, which is the CID, not after the original file (`UploadedFileRetrieved`).
- `FileDecrypt` does not add the suffix before `decryptFile`, and it removes the first `.encrypted` once more itself. A name is therefore stripped twice (`DownloadStripsTwice`, `DoubleEncryptedName`).
- When `uploadToPinata` fails, `handleUpload` never calls `clearInterval`. The interval keeps ticking and pulls the bar from wherever it stands towards 90 (`StoreWhileTicking`, `LeakedTickPullsBack`).

## Model

| member | source | states |
|---|---|---|
| Strings.IndexOf | src/lib/encryption.ts:63 | the position found is an occurrence with none before it; nothing is found exactly when the pattern does not occur |
| Strings.Split | src/components/FileRetrieval.tsx:24 | `split` yields at least one piece and joining the pieces with the separator gives the string back (that no piece holds the separator is `SplitPiecesLackSeparator`) |
| Strings.SplitPiecesLackSeparator | src/components/FileRetrieval.tsx:24 | no piece of the split contains the separator; for a separator that cannot overlap itself, such as `/` and `ipfs/`, this and `Split`'s join determine the pieces |
| Strings.LastPiece | src/components/FileRetrieval.tsx:24 | `pop` on a string without the separator gives the whole string |
| Strings.LastPieceIsSuffix | src/components/FileRetrieval.tsx:65 | the piece `pop` returns ends the string and holds no separator; a string without a separator is its own last piece |
| Strings.LastPieceFollowsSeparator | src/components/FileRetrieval.tsx:24 | when the separator occurs, the last piece comes right after one occurrence of it |
| Strings.RemoveFirst | src/lib/encryption.ts:63 | `replace` leaves a string without the pattern unchanged and otherwise shortens it by exactly the pattern's length |
| Strings.RemoveFirstRemovesFirst | src/lib/encryption.ts:63 | the removed occurrence is the first one: putting the pattern back at a point with no earlier occurrence gives the input |
| Strings.Trim | src/components/FileRetrieval.tsx:33-41 | the trimmed string neither starts nor ends with ECMAScript whitespace, and is empty exactly when the input is all whitespace (that only whitespace at the two ends is cut is `TrimCutsOnlyEnds`) |
| Strings.TrimCutsOnlyEnds | src/components/FileRetrieval.tsx:33-41 | the trimmed string is one contiguous stretch of the input, and what is cut before it and after it is all whitespace |
| Strings.TrimmedUnchanged | src/components/FileRetrieval.tsx:41 | trimming is idempotent, and a string already trimmed is left as it is |
| Encryption.Encode | src/lib/encryption.ts:37-39 | the envelope's bytes are the nonce followed by the ciphertext, with nothing in between and nothing added |
| Encryption.Decode | src/lib/encryption.ts:49-55 | fewer than 12 bytes is rejected; otherwise the result has a 12-byte nonce and re-encodes to exactly the input |
| Encryption.DecodeEncode | src/lib/encryption.ts:37-39 | decoding undoes encoding for every 12-byte nonce and every ciphertext, including an empty one |
| Encryption.DecodeExactlyIv | src/lib/encryption.ts:49-55 | exactly 12 bytes pass the length check and leave an empty ciphertext |
| Encryption.SetBytes | src/lib/encryption.ts:38-39 | `Uint8Array.set` copies the source in at the offset and leaves every other element as it was |
| Encryption.CombineIvAndCiphertext | src/lib/encryption.ts:37-39 | the freshly allocated buffer holds exactly the encoded envelope of the nonce and the ciphertext |
| Encryption.EncryptedName | src/lib/encryption.ts:41 | the encrypted name is the original name followed by `.encrypted` |
| Encryption.DecryptedName | src/lib/encryption.ts:63 | a name without `.encrypted` is kept; otherwise the result is exactly one suffix length shorter |
| Encryption.DecryptedNameWithoutSuffix | src/lib/encryption.ts:63 | a name holding no `.encrypted` is left alone by decryption |
| Encryption.FirstSuffixFollowsName | src/lib/encryption.ts:63 | in `name.encrypted...` the first `.encrypted` is the one after `name` when `name` holds none: no occurrence straddles the joint |
| Encryption.DecryptedNameDropsFirst | src/lib/encryption.ts:63 | decrypting `name + ".encrypted" + rest` gives `name + rest` when `name` holds no `.encrypted` |
| Encryption.NameRoundTrip | src/lib/encryption.ts:41-63 | encryption's renaming followed by decryption's restores every name holding no `.encrypted` |
| Encryption.StripsFirstNotTrailing | src/lib/encryption.ts:63 | the first occurrence goes: `a.encrypted.txt.encrypted` becomes `a.txt.encrypted`, so a name holding `.encrypted` elsewhere does not round-trip |
| Encryption.EncryptFile | src/lib/encryption.ts:25-42 | `encryptFile` with a given nonce: a key-derivation error propagates; otherwise the result is the file `EncryptedFile` describes |
| Encryption.EncryptedFile | src/lib/encryption.ts:25-42 | fails exactly when key derivation fails, with its message; otherwise the file is named `name.encrypted`, typed `application/encrypted`, and its bytes begin with the nonce |
| Encryption.EncryptedFileLayout | src/lib/encryption.ts:25-42 | the encrypted file's bytes are the 12-byte nonce then the sealed content; it is named `name.encrypted` and typed `application/encrypted` |
| Encryption.DecryptFile | src/lib/encryption.ts:44-69 | every failure carries the one fixed message; success needs at least 12 bytes and a derived key, the content is what AES-GCM opened from the split envelope, and the name is the decrypted name with no type; conversely it succeeds whenever the key derives, there are at least 12 bytes and AES-GCM opens the rest |
| Encryption.ShortInputRejectedBeforeCipher | src/lib/encryption.ts:49-51 | fewer than 12 bytes fail with the fixed message, and the result does not depend on the cipher at all |
| Encryption.IvOnlyInputOpensEmptyCiphertext | src/lib/encryption.ts:49-61 | exactly 12 bytes reach `decrypt` with an empty ciphertext, which AES-GCM refuses, giving the fixed message |
| Encryption.OpenSealedEnvelope | src/lib/encryption.ts:54-64 | an envelope sealed under the password's key decrypts to the plaintext under the decrypted name, whatever the file's name and type |
| Encryption.EncryptDecryptRoundTrip | src/lib/encryption.ts:25-69 | decrypting what `encryptFile` produced, with the same password, gives back the original bytes and name (for a name holding no `.encrypted`) |
| Gateway.GatewayUrl | src/components/FileRetrieval.tsx:41 | the URL is the Pinata gateway prefix followed by the trimmed CID |
| Gateway.UrlFileName | src/components/FileRetrieval.tsx:65 | the name is never empty and holds no `/`; it is the URL's last segment when that is non-empty (and ends the URL), `encrypted-file` otherwise |
| Gateway.HttpErrorMessage | src/components/FileRetrieval.tsx:61 | the message thrown for a failed status starts with `HTTP error` and ends with the status in decimal |
| Gateway.ClassifyFailure | src/components/FileRetrieval.tsx:87-92 | a message is a retrieval failure exactly when it contains `HTTP error`, a password failure exactly when it does not |
| Gateway.HttpErrorReportedAsRetrieval | src/components/FileRetrieval.tsx:60-62 | the error thrown for a failed status is always classified as a retrieval failure, whatever the status |
| Gateway.DecryptFailureReportedAsPassword | src/components/FileRetrieval.tsx:87-92 | the error `decryptFile` throws is always classified as a password failure |
| Gateway.GatewayUrlFileName | src/components/FileRetrieval.tsx:41-65 | the file name taken from the gateway URL of a trimmed CID without `/` is exactly that CID |
| Gateway.LastSegment | src/components/FileRetrieval.tsx:65 | for any URL ending in `/` and a non-empty segment without `/`, the name taken is exactly that segment |
| Retrieval.CidFromUrl | src/components/FileRetrieval.tsx:23-25 | a CID is taken exactly when the input contains `ipfs/` and its last piece is non-empty; the CID holds no `ipfs/` and ends the input right after one |
| Retrieval.RetrievalFileName | src/components/FileRetrieval.tsx:65-66 | the name handed to `decryptFile` always ends with `.encrypted`: the URL's name when it already does, that name with the suffix appended otherwise |
| Retrieval.DecryptOutcome | src/components/FileRetrieval.tsx:56-98 | every outcome of the `try` ends with a toast, and more than that toast happens exactly when the response is ok |
| Retrieval.DecryptedEvents | src/components/FileRetrieval.tsx:68-98 | the outcome ends with a toast, and a download comes first exactly when `decryptFile` succeeded |
| Retrieval.DecryptOnlyAfterOkResponse | src/components/FileRetrieval.tsx:58-68 | `decryptFile` is called exactly when the response is ok, and then first, with a name ending in `.encrypted` |
| Retrieval.FailedStatusReportsRetrieval | src/components/FileRetrieval.tsx:60-62 | a failed status ends the attempt with the retrieval toast alone, whatever the cipher and the password |
| Retrieval.DecryptFailureReportsPassword | src/components/FileRetrieval.tsx:68 | after an ok response, a failing `decryptFile` gives its call and then the password toast, with no download |
| Retrieval.NetworkFailureReportsPassword | src/components/FileRetrieval.tsx:84-98 | a rejected `fetch` whose message lacks `HTTP error` is reported with the password toast |
| Retrieval.DownloadNameIsUrlSegment | src/components/FileRetrieval.tsx:65-74 | on success the download is named after the URL's last segment when that segment holds no `.encrypted`: the appended suffix is the one stripped |
| Retrieval.UploadedFileRetrieved | src/components/FileRetrieval.tsx:41-83 | end to end: an encrypted file fetched from its CID's gateway URL decrypts to the original bytes, downloaded under the CID, with the success toast |
| Retrieval.EncryptedContentDecrypts | src/components/FileRetrieval.tsx:66-68 | the encrypted bytes under `name.encrypted` decrypt to the original bytes under `name` |
| Retrieval.OkResponseOutcome | src/components/FileRetrieval.tsx:64-83 | an ok response whose body decrypts gives the `decryptFile` call, the download and the success toast, in that order |
| Retrieval.RetrievalNameOfCid | src/components/FileRetrieval.tsx:65-66 | for a CID's gateway URL, `decryptFile` gets the name `cid.encrypted` |
| Retrieval.FileRetrieval.constructor | src/components/FileRetrieval.tsx:12-17 | every field starts empty or false and nothing has happened |
| Retrieval.FileRetrieval.SetPassword | src/components/FileRetrieval.tsx:156 | only the password changes |
| Retrieval.FileRetrieval.HandleRetrieve | src/components/FileRetrieval.tsx:32-43 | a blank CID shows the invalid-CID toast and leaves the URL; otherwise the URL becomes the gateway URL of the trimmed CID; nothing else changes |
| Retrieval.FileRetrieval.HandleUrlInput | src/components/FileRetrieval.tsx:21-30 | without a CID in the input the field is set to the input; with one, the field becomes that CID and `handleRetrieve` runs on it |
| Retrieval.FileRetrieval.HandleDecrypt | src/components/FileRetrieval.tsx:45-102 | without URL or password only the missing-information toast; otherwise one fetch of the URL then `DecryptOutcome`; never decrypting afterwards |
| DecryptView.AttemptShapes | src/components/FileDecrypt.tsx:46-91 | an attempt ends in one of three ways: stopped by the fetch, stopped by `decryptFile`, or downloaded |
| DecryptView.DecryptAttempt | src/components/FileDecrypt.tsx:46-91 | every attempt ends with a toast, and progress past 10 is set exactly when the response is ok |
| DecryptView.Delivery | src/components/FileDecrypt.tsx:59-91 | the outcome ends with a toast, and progress 80 and 100 are set exactly when `decryptFile` succeeded |
| DecryptView.ProgressFollowsStages | src/components/FileDecrypt.tsx:44-72 | the progress runs through a prefix of 10, 30, 50, 80, 100 without going back, and reaches 100 exactly when the file was downloaded |
| DecryptView.FailedStatusStopsBeforeDecrypt | src/components/FileDecrypt.tsx:49-51 | a failed status shows the retrieval toast before `decryptFile` is called and before progress passes 10 |
| DecryptView.OtherFailuresReportPassword | src/components/FileDecrypt.tsx:77-91 | a failing `decryptFile`, and a rejected fetch whose message lacks `HTTP error`, end with the password toast |
| DecryptView.DecryptGetsUrlSegment | src/components/FileDecrypt.tsx:55-59 | `decryptFile` is called exactly after an ok response, with the URL's last segment and no suffix added |
| DecryptView.DownloadStripsTwice | src/components/FileDecrypt.tsx:59-66 | the download name is the URL's segment with the first `.encrypted` removed twice, so it is at most two suffixes shorter |
| DecryptView.TwiceStripsTwo | src/components/FileDecrypt.tsx:59-66 | two removals drop exactly two consecutive `.encrypted` after a name holding none, wherever later ones stand |
| DecryptView.DoubleEncryptedName | src/components/FileDecrypt.tsx:59-66 | a name encrypted twice downloads under its original name |
| DecryptView.TripleEncryptedNameKeepsOne | src/components/FileDecrypt.tsx:59-66 | a name encrypted three times keeps one `.encrypted` |
| DecryptView.UploadedFileDecrypted | src/components/FileDecrypt.tsx:29-76 | end to end: an encrypted file fetched from its CID's gateway URL downloads with its original bytes under the CID, with progress 30, 50, 80, 100 |
| DecryptView.OkAttempt | src/components/FileDecrypt.tsx:53-76 | an ok response whose body decrypts gives the call, the download, the success toast and progress 30, 50, 80, 100 |
| DecryptView.FileDecrypt.constructor | src/components/FileDecrypt.tsx:12-17 | every field starts empty, zero or false and nothing has happened |
| DecryptView.FileDecrypt.SetCid | src/components/FileDecrypt.tsx:12 | only the CID changes |
| DecryptView.FileDecrypt.SetPassword | src/components/FileDecrypt.tsx:14 | only the password changes |
| DecryptView.FileDecrypt.HandleRetrieve | src/components/FileDecrypt.tsx:20-31 | a blank CID shows the invalid-CID toast and leaves the URL; otherwise the URL becomes the gateway URL of the trimmed CID |
| DecryptView.FileDecrypt.HandleDecrypt | src/components/FileDecrypt.tsx:33-96 | without URL or password only the missing-information toast; otherwise progress 10, one fetch, then `DecryptAttempt`'s effects and progress; one reset scheduled; the bar shows the last value set |
| DecryptView.FileDecrypt.Settle | src/components/FileDecrypt.tsx:46-91 | the effects and progress after the fetch are exactly those of `DecryptAttempt` for its result |
| DecryptView.FileDecrypt.DecryptResponse | src/components/FileDecrypt.tsx:53-76 | after an ok response: progress 30 and 50, the `decryptFile` call on the URL's segment, then what `Delivery` says for its result |
| DecryptView.FileDecrypt.Deliver | src/components/FileDecrypt.tsx:60-91 | a failure shows its toast; a success sets 80, downloads under the name stripped once more, sets 100 and shows the success toast |
| DecryptView.FileDecrypt.ResetTimerFires | src/components/FileDecrypt.tsx:94 | a scheduled reset sets the bar back to 0 and nothing else changes |
| Upload.ProgressTick | src/components/FileUpload.tsx:59-61 | one tick never passes 90, never lowers a value at or below 90, and raises any value below 90 |
| Upload.TickHistoryAt | src/components/FileUpload.tsx:59-61 | the k-th value the interval sets is the progress after k + 1 ticks |
| Upload.TicksClosedForm | src/components/FileUpload.tsx:60 | from at most 90, n ticks give `min(p + 10n, 90)` |
| Upload.TickHistoryBounded | src/components/FileUpload.tsx:59-61 | from at most 90 the ticks never go down and never pass 90 |
| Upload.LeakedTickPullsBack | src/components/FileUpload.tsx:60 | a tick of an interval left running moves a bar at 100 back to 90 |
| Upload.UploadedFile | src/components/FileUpload.tsx:50-56 | the file stored is the dropped one without encryption, `encryptFile`'s result with it; preparing fails exactly when encryption is on and key derivation fails |
| Upload.UploadAttempt | src/components/FileUpload.tsx:49-81 | the attempt is the failure toast alone exactly when preparing the file failed |
| Upload.AttemptWith | src/components/FileUpload.tsx:59-81 | every attempt ends with a toast; when a CID is kept, the interval was cleared and the last progress is 100 |
| Upload.ExactlyOneStore | src/components/FileUpload.tsx:49-81 | an accepted call stores the prepared file exactly once, or never when encryption failed; a CID is kept exactly when the store returned one, and it is that hash |
| Upload.ProgressBeforeStoreBounded | src/components/FileUpload.tsx:47-61 | until the store settles the progress climbs from 0 without going back and stays at or below 90 |
| Upload.ProgressOfUpload | src/components/FileUpload.tsx:47-67 | an accepted call's progress starts at 0 and never goes down, stays at or below 90 until its last value, and ends at 100 exactly when a CID was kept |
| Upload.StoredFileDecrypts | src/components/FileUpload.tsx:52-56 | with encryption on, the stored file decrypts with the same password to the dropped bytes under the dropped name, for a name holding no `.encrypted` |
| Upload.FileUpload.constructor | src/components/FileUpload.tsx:16-22 | no file, empty CID and password, progress 0, encryption off, nothing running and nothing done |
| Upload.FileUpload.OnDrop | src/components/FileUpload.tsx:25-27 | the file becomes the first accepted file, or none; nothing else changes |
| Upload.FileUpload.SetUseEncryption | src/components/FileUpload.tsx:125 | only the encryption switch changes |
| Upload.FileUpload.SetPassword | src/components/FileUpload.tsx:137 | only the password changes |
| Upload.FileUpload.IntervalTick | src/components/FileUpload.tsx:59-61 | a tick moves the progress by `ProgressTick` and records it; nothing else changes |
| Upload.FileUpload.TicksWhileStoring | src/components/FileUpload.tsx:59-63 | n ticks leave the progress at `Ticks(p, n)` and record exactly `TickHistory(p, n)` |
| Upload.FileUpload.PrepareUpload | src/components/FileUpload.tsx:50-56 | returns `UploadedFile`; with encryption on it records 10, then 30 only when encryption succeeded; without it the progress is untouched |
| Upload.FileUpload.StoreWhileTicking | src/components/FileUpload.tsx:59-81 | one store call; on a hash the CID is kept, the interval cleared, progress set to 100 and the success toast shown; on failure the failure toast and one more interval left running |
| Upload.FileUpload.UploadSelected | src/components/FileUpload.tsx:46-84 | progress 0, then exactly the events, progress, CID and leaked interval of `UploadAttempt`; not uploading afterwards |
| Upload.FileUpload.HandleUpload | src/components/FileUpload.tsx:34-85 | no file: nothing; encryption on and no password: only the password toast; otherwise `UploadSelected` |
| Help.Matches | src/components/HelpFAQ.tsx:46-47 | the empty query matches every entry |
| Help.Filter | src/components/HelpFAQ.tsx:45-48 | the filter never adds entries; which ones it keeps is `FilterMembership` |
| Help.FilterMembership | src/components/HelpFAQ.tsx:45-48 | the filter keeps exactly the entries whose lower-cased question or answer contains the lower-cased query, and adds none |
| Help.FilteredFaqs | src/components/HelpFAQ.tsx:44-49 | an empty query shows every entry unchanged; otherwise an entry is shown exactly when it matches |
| Help.FilterKeepsOrder | src/components/HelpFAQ.tsx:45-48 | the result is the subsequence of exactly the matching entries, in list order |
| Help.EmptyQueryKeepsAll | src/components/HelpFAQ.tsx:44-49 | filtering with an empty query would keep every entry too, so the `searchQuery ?` test changes nothing |
| Help.QueryCaseIgnored | src/components/HelpFAQ.tsx:46-47 | a query and its lower-cased form select the same entries |
| Help.IpfsQueryFindsIpfsEntry | src/components/HelpFAQ.tsx:21-48 | on the real list, searching `IPFS` shows the "What is IPFS?" entry, although the question is not lower case |
| Help.NoResultsMessage | src/components/HelpFAQ.tsx:106-110 | the no-results text appears exactly when the list is empty, or the query is non-empty and no entry matches |
| Help.HelpFaq.constructor | src/components/HelpFAQ.tsx:12-18 | empty search, empty ticket, not submitting, no toast |
| Help.HelpFaq.SetSearchQuery | src/components/HelpFAQ.tsx:93 | only the search query changes |
| Help.HelpFaq.SetEmail | src/components/HelpFAQ.tsx:164 | only the ticket's email changes |
| Help.HelpFaq.SetSubject | src/components/HelpFAQ.tsx:175 | only the ticket's subject changes |
| Help.HelpFaq.SetMessage | src/components/HelpFAQ.tsx:186 | only the ticket's message changes |
| Help.HelpFaq.HandleSubmitTicket | src/components/HelpFAQ.tsx:51-78 | one "Ticket Submitted" toast, every field of the ticket emptied, not submitting afterwards, the search untouched |
| Wallet.FormatAddress | src/components/MetaMaskAuth.tsx:75-77 | the label is the first six characters, `...`, and the last four (fewer when the address is shorter), 13 characters for any address of at least ten |
| Wallet.SameLabelSameEnds | src/components/MetaMaskAuth.tsx:75-77 | two addresses of at least ten characters with the same label share their first six and last four characters |
| Wallet.SelectedAccount | src/components/MetaMaskAuth.tsx:35-44 | an empty account list selects nothing; otherwise the first account |
| Wallet.ConnectEvents | src/components/MetaMaskAuth.tsx:16-73 | a call has at least one effect; the first is `onConnect` exactly when the wallet connected, and then it gets the first account |
| Wallet.ConnectsFirstAccountOnly | src/components/MetaMaskAuth.tsx:16-72 | `onConnect` gets an account exactly when MetaMask is present, both requests succeed and the list is non-empty, and then only its first account |
| Wallet.OneToastPerCall | src/components/MetaMaskAuth.tsx:16-72 | every call shows exactly one toast, and it is "Wallet Connected" exactly when the wallet connected |
| Wallet.Forwarded | src/components/MetaMaskAuth.tsx:52-56 | an empty account list reaches no listener; otherwise each registered listener passes on the first account |
| Wallet.Render | src/components/MetaMaskAuth.tsx:79-108 | the address label shows exactly when connected with a non-empty address; otherwise the button, disabled and "Connecting..." exactly while connecting |
| Wallet.MetaMaskAuth.constructor | src/components/MetaMaskAuth.tsx:13 | not connecting, no listener, nothing done |
| Wallet.MetaMaskAuth.ConnectWallet | src/components/MetaMaskAuth.tsx:16-73 | the effects are `ConnectEvents`; a listener is added exactly when the wallet connected; with MetaMask present the call ends not connecting |
| Wallet.MetaMaskAuth.AccountsChanged | src/components/MetaMaskAuth.tsx:52-56 | each registered listener calls `onConnect` with the first account of a non-empty list, and nothing else changes |
| Effects.DestructiveExactlyOnProblems | src/components/FileUpload.tsx:69-81 | a toast uses the destructive variant exactly when its notice is not a success; no "Success!" toast is destructive |

## Left out

- Web Crypto's internals: PBKDF2 and AES-GCM are the parameters of a `CryptoProvider`. `IsAesGcm` assumes the correctness, tag length and short-ciphertext refusal of AES-GCM; it is not proved. `importKey` and `deriveKey` are one `deriveKey` function of the password and the parameters.
- `Encryption.GenerateKey`: it is the foreign `deriveKey` call under the fixed parameters `Pbkdf2Params`, which match encryption.ts:11-19. It has no property of its own; what it must guarantee, that the same password gives the same key on both sides, is carried by `EncryptDecryptRoundTrip`.
- A rejection by `encrypt` itself: the model lets only key derivation fail in `encryptFile`. `seal` is total.
- The randomness of `getRandomValues`: the 12-byte nonce is a parameter of `EncryptFile`, so nonce uniqueness is not modelled.
- `uploadToPinata`: `src/lib/pinata.ts` is not part of this model. The store is a function parameter that returns a hash or fails.
- `fetch` and `response.blob()`: a fetch is a parameter that gives a network failure or a status and body. The body is read in full.
- The MetaMask RPCs: `window.ethereum`, `eth_requestAccounts` and `eth_chainId` are parameters. The `chainChanged` listener that reloads the page is left out, because a reload ends the model's state.
- `Wallet.MetaMaskAuth.ConnectWallet`: the listener registration is counted, not stored as a callback. The order in which the two requests fail is not distinguished, since both give the same toast.
- Timers. Each is left out or reduced as follows:
  - The 500 ms interval is a given number of ticks before the store settles. Ticks of a leaked interval after the call are `IntervalTick` calls.
  - The 2000 ms reset of `FileDecrypt` is a pending count with `ResetTimerFires`.
  - The 1500 ms wait of the help form is left out, because it always resolves.
- `Help.HelpFaq.HandleSubmitTicket`: the `catch` toast "Error" is left out, because the simulated call cannot reject. The browser's `required` field validation before submission is not modelled.
- String lengths and indices: a `string` here is a sequence of Unicode scalar values, while JavaScript's `length`, `slice` and `indexOf` count UTF-16 code units. The two agree on the ASCII text the core handles (hex addresses, CIDs, URLs, file-name suffixes), not on names with characters outside the Basic Multilingual Plane.
- `Strings.ToLower`: only ASCII letters are folded. `toLowerCase` folds all of Unicode.
- The toasts' rendering and the `useToast` queue: a toast is recorded by which notice it is. Its texts and variant are the functions `Title`, `Description` and `Destructive`.
- Object URLs, the anchor element used for the download, the QR code display and `console` logging.
- The show-password toggles and the `FileRetrieval` encryption switch: they change only what is displayed. The `isEncrypted` field is kept but no handler reads it.
- The rest of the repository (pages, layout, the other UI components, `pinata.ts`) is not part of this model.
- Concurrency: handlers run to completion one at a time. React's batching of state updates and stale closures over state are not modelled.
