/** What the components do that can be observed from outside: the toasts
    they show and the calls they make. A toast is recorded by which notice
    it is; its title, text and variant are fixed by `Title`, `Description`
    and `Destructive`. */
module Effects {
  import opened Base

  /** The two ways the `catch` blocks of the retrieval handlers explain a
      failure. */
  datatype Failure = RetrievalFailure | PasswordFailure

  /** Every toast the modelled components show. */
  datatype Notice =
    | InvalidCid(acceptsUrl: bool)
    | MissingInformation
    | DecryptionFailed(failure: Failure)
    | Decrypted
    | PasswordRequired
    | Uploaded(encrypted: bool)
    | UploadFailed
    | TicketSubmitted
    | MetaMaskNotFound
    | WalletConnected
    | ConnectionFailed

  function Title(n: Notice): string {
    match n
    case InvalidCid(_) => "Invalid CID"
    case MissingInformation => "Missing Information"
    case DecryptionFailed(_) => "Decryption Failed"
    case Decrypted => "Success!"
    case PasswordRequired => "Password Required"
    case Uploaded(_) => "Success!"
    case UploadFailed => "Upload Failed"
    case TicketSubmitted => "Ticket Submitted"
    case MetaMaskNotFound => "MetaMask Not Found"
    case WalletConnected => "Wallet Connected"
    case ConnectionFailed => "Connection Failed"
  }

  function Description(n: Notice): string {
    match n
    case InvalidCid(acceptsUrl) =>
      if acceptsUrl then "Please enter a valid IPFS CID or URL" else "Please enter a valid IPFS CID"
    case MissingInformation => "Please ensure you have entered both CID and password"
    case DecryptionFailed(RetrievalFailure) => "Failed to retrieve the file from IPFS. Please check your CID."
    case DecryptionFailed(PasswordFailure) =>
      "Failed to decrypt the file. " + "Please check your password and ensure the file is encrypted."
    case Decrypted => "File decrypted and downloaded successfully."
    case PasswordRequired => "Please enter a password for file encryption."
    case Uploaded(encrypted) =>
      if encrypted then "File encrypted and uploaded successfully. Keep your password safe!"
      else "File uploaded successfully to IPFS."
    case UploadFailed => "There was an error uploading your file."
    case TicketSubmitted => "We'll get back to you as soon as possible."
    case MetaMaskNotFound => "Please install MetaMask to continue"
    case WalletConnected => "Successfully connected to MetaMask"
    case ConnectionFailed => "Failed to connect to MetaMask. Please try again."
  }

  /** Whether the toast uses the `destructive` variant. */
  predicate Destructive(n: Notice) {
    n.InvalidCid? || n.MissingInformation? || n.DecryptionFailed? || n.PasswordRequired?
    || n.UploadFailed? || n.MetaMaskNotFound? || n.ConnectionFailed?
  }

  /** The destructive variant marks exactly the toasts that report a
      problem; the four success toasts use the default one. */
  lemma DestructiveExactlyOnProblems(n: Notice)
    ensures Destructive(n) <==> !(n.Decrypted? || n.Uploaded? || n.TicketSubmitted? || n.WalletConnected?)
    ensures Title(n) == "Success!" ==> !Destructive(n)
  {
  }

  /** What a handler does that can be observed from outside the component:
      a toast, a `fetch`, a call to `decryptFile` with the name it is given,
      a download through an anchor click, a call to `uploadToPinata`, a call
      of the `onConnect` callback, a `window.open`. */
  datatype Event =
    | Toast(notice: Notice)
    | Fetch(url: string)
    | DecryptCall(name: string)
    | Download(name: string, content: seq<byte>)
    | Store(file: File)
    | Connect(address: string)
    | OpenWindow(url: string)
}
