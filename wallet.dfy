/** The `MetaMaskAuth` component (`src/components/MetaMaskAuth.tsx`): the
    connect button, the account it hands to `onConnect`, and the shortened
    address it shows once connected. The wallet's RPC calls are parameters:
    whether `window.ethereum` exists, what `eth_requestAccounts` settles to,
    and what `eth_chainId` settles to. */
module Wallet {
  import opened Base
  import opened Strings
  import opened Effects

  const MetaMaskDownloadUrl := "https://metamask.io/download/"

  /** `formatAddress`: `address.slice(0, 6)`, then `...`, then
      `address.slice(-4)`. */
  function FormatAddress(address: string): (r: string)
    ensures var head, tail := Min(6, |address|), Min(4, |address|);
            && |r| == head + 3 + tail
            && r[..head] == address[..head]
            && r[head..head + 3] == "..."
            && r[head + 3..] == address[|address| - tail..]
    ensures |address| >= 10 ==> |r| == 13
  {
    Slice(address, 0, 6) + "..." + Slice(address, -4, |address|)
  }

  /** Two addresses of at least ten characters with the same label share
      their first six and their last four characters. */
  lemma SameLabelSameEnds(a: string, b: string)
    requires |a| >= 10 && |b| >= 10 && FormatAddress(a) == FormatAddress(b)
    ensures a[..6] == b[..6] && a[|a| - 4..] == b[|b| - 4..]
  {
    var r := FormatAddress(a);
    assert r[..6] == a[..6];
    assert r[9..] == a[|a| - 4..];
  }

  /** The account a non-empty list selects: its first element. */
  function SelectedAccount(accounts: seq<string>): (r: Option<string>)
    ensures r.None? <==> accounts == []
    ensures r.Some? ==> r.value == accounts[0] && r.value in accounts
  {
    if accounts == [] then None else Some(accounts[0])
  }

  /** `connectWallet`, given whether MetaMask is installed and what the two
      requests settle to (`Err` for a rejection): without MetaMask a toast
      and the download page; an empty account list or a rejection fails
      with a toast; otherwise `onConnect` gets the first account. */
  function ConnectEvents(ethereumPresent: bool, accounts: Result<seq<string>>, chainId: Result<string>): (r: seq<Event>)
    ensures |r| >= 1
    ensures r[0].Connect? <==> Connected(ethereumPresent, accounts, chainId)
    ensures r[0].Connect? ==> r[0].address == accounts.value[0]
  {
    if !ethereumPresent then [Toast(MetaMaskNotFound), OpenWindow(MetaMaskDownloadUrl)]
    else if accounts.Err? || accounts.value == [] || chainId.Err? then [Toast(ConnectionFailed)]
    else [Connect(accounts.value[0]), Toast(WalletConnected)]
  }

  /** Whether a call of `connectWallet` got as far as registering its
      `accountsChanged` listener. */
  predicate Connected(ethereumPresent: bool, accounts: Result<seq<string>>, chainId: Result<string>) {
    ethereumPresent && accounts.Ok? && accounts.value != [] && chainId.Ok?
  }

  /** `onConnect` is called at most once, only on success, and only with the
      first account of the list; an empty list never reaches it. */
  lemma ConnectsFirstAccountOnly(ethereumPresent: bool, accounts: Result<seq<string>>, chainId: Result<string>, x: string)
    ensures var events := ConnectEvents(ethereumPresent, accounts, chainId);
            (exists k :: 0 <= k < |events| && events[k] == Connect(x))
              <==> Connected(ethereumPresent, accounts, chainId) && SelectedAccount(accounts.value) == Some(x)
    ensures accounts == Ok([]) ==> forall e :: e in ConnectEvents(ethereumPresent, accounts, chainId) ==> !e.Connect?
  {
    var events := ConnectEvents(ethereumPresent, accounts, chainId);
    if Connected(ethereumPresent, accounts, chainId) && SelectedAccount(accounts.value) == Some(x) {
      assert events[0] == Connect(x);
    }
  }

  /** Every call ends with exactly one toast, and it is the success toast
      exactly when the wallet connected. */
  lemma OneToastPerCall(ethereumPresent: bool, accounts: Result<seq<string>>, chainId: Result<string>)
    ensures var events := ConnectEvents(ethereumPresent, accounts, chainId);
            && |set k | 0 <= k < |events| && events[k].Toast?| == 1
            && (Toast(WalletConnected) in events <==> Connected(ethereumPresent, accounts, chainId))
  {
    var events := ConnectEvents(ethereumPresent, accounts, chainId);
    var toasts := set k | 0 <= k < |events| && events[k].Toast?;
    if !ethereumPresent {
      assert toasts == {0};
    } else if Connected(ethereumPresent, accounts, chainId) {
      assert toasts == {1};
    } else {
      assert toasts == {0};
    }
  }

  /** What one `accountsChanged` event makes the registered listeners do:
      each forwards the first account of a non-empty list, none acts on an
      empty one. */
  function Forwarded(newAccounts: seq<string>, listeners: nat): (r: seq<Event>)
    ensures newAccounts == [] ==> r == []
    ensures newAccounts != [] ==> |r| == listeners && forall e :: e in r ==> e == Connect(newAccounts[0])
  {
    match SelectedAccount(newAccounts)
    case None => []
    case Some(a) => seq(listeners, _ => Connect(a))
  }

  /** The button the component renders. */
  datatype WalletButton = AddressButton(text: string) | ConnectButton(connecting: bool)

  /** The render: the shortened address when `isConnected` and
      `walletAddress` is a non-empty string; otherwise the connect button,
      disabled and reading "Connecting..." while a connection is pending. */
  function Render(isConnected: bool, walletAddress: Option<string>, isConnecting: bool): (b: WalletButton)
    ensures b.AddressButton? <==> isConnected && walletAddress.Some? && walletAddress.value != ""
    ensures b.AddressButton? ==> b.text == FormatAddress(walletAddress.value)
    ensures b.ConnectButton? ==> b.connecting == isConnecting
  {
    if isConnected && walletAddress.Some? && walletAddress.value != "" then AddressButton(FormatAddress(walletAddress.value))
    else ConnectButton(isConnecting)
  }

  /** The component's own state, the listeners it has registered and what
      it has done so far. */
  class MetaMaskAuth {
    var isConnecting: bool
    /** `accountsChanged` listeners registered by earlier successful
        connections; none is ever removed. */
    var accountListeners: nat
    /** Every observable effect, oldest first. */
    var trace: seq<Event>

    constructor ()
      ensures !isConnecting && accountListeners == 0 && trace == []
    {
      isConnecting, accountListeners, trace := false, 0, [];
    }

    /** `connectWallet()`: `ConnectEvents`, a new listener after a
        successful connection, and `isConnecting` false at the end whenever
        MetaMask was there. */
    method ConnectWallet(ethereumPresent: bool, accounts: Result<seq<string>>, chainId: Result<string>)
      modifies this
      ensures trace == old(trace) + ConnectEvents(ethereumPresent, accounts, chainId)
      ensures accountListeners == old(accountListeners) + (if Connected(ethereumPresent, accounts, chainId) then 1 else 0)
      ensures ethereumPresent ==> !isConnecting
      ensures !ethereumPresent ==> isConnecting == old(isConnecting)
    {
      if !ethereumPresent {
        trace := trace + [Toast(MetaMaskNotFound), OpenWindow(MetaMaskDownloadUrl)];
        return;
      }
      isConnecting := true;
      var failed := accounts.Err? || |accounts.value| == 0 || chainId.Err?;
      if failed {
        trace := trace + [Toast(ConnectionFailed)];
      } else {
        trace := trace + [Connect(accounts.value[0]), Toast(WalletConnected)];
        accountListeners := accountListeners + 1;
      }
      isConnecting := false;
    }

    /** MetaMask reports a new account list to every registered listener. */
    method AccountsChanged(newAccounts: seq<string>)
      modifies this
      ensures trace == old(trace) + Forwarded(newAccounts, accountListeners)
      ensures accountListeners == old(accountListeners) && isConnecting == old(isConnecting)
    {
      trace := trace + Forwarded(newAccounts, accountListeners);
    }
  }
}
