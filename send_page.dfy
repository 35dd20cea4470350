/**
  The send form (`SendPage`): state initialised from navigation state and the
  query string, changed by the address, candidate, amount, message, asset and
  QR-scan events, and read by the send guard and by `send`, which builds the
  transfer parameters. Asynchronous completions (account searches, QR scans)
  are separate steps whose results are inputs; account searches are not
  fenced, so a search that settles late overwrites the candidate list
  whatever happened in between.
 */
module SendPage {
  import opened Wrappers
  import opened Text
  import opened Wallet
  import QueryString

  /** The address length the send guard demands, in UTF-16 code units. */
  const AddressLength: nat := 42

  /** The error `send` throws without an asset. */
  const NoAssetError: string := "Asset not selected"

  /** `{to: '', value: '', message: '', ...navigationState, ...queryParams}`. */
  function Merge(nav: QueryString.Params, query: QueryString.Params): (merged: QueryString.Params)
    ensures "to" in merged && "value" in merged && "message" in merged
    ensures forall k :: k in merged <==> (k in query || k in nav || k == "to" || k == "value" || k == "message")
    ensures forall k :: k in query ==> merged[k] == query[k]
    ensures forall k :: k in nav && k !in query ==> merged[k] == nav[k]
    ensures forall k :: k !in nav && k !in query && k in merged ==> merged[k] == ""
  {
    map["to" := "", "value" := "", "message" := ""] + nav + query
  }

  /** `(requested && getAsset(requested)) || assets[0]`: the first asset with the requested
      id, else the first asset; `None` when there are no assets. */
  function InitialAsset(requested: Option<string>, assets: seq<Asset>): (a: Option<Asset>)
    ensures a.None? <==> assets == []
    ensures Truthy(requested) && FindAsset(assets, requested.value).Some? ==>
      a.Some? && a.value.id == requested.value && a == FindAsset(assets, requested.value)
    ensures !(Truthy(requested) && FindAsset(assets, requested.value).Some?) && assets != [] ==> a == Some(assets[0])
  {
    if Truthy(requested) && FindAsset(assets, requested.value).Some? then FindAsset(assets, requested.value)
    else if assets != [] then Some(assets[0])
    else None
  }

  /** `data && isMax ? data.maximumSendableBalance : null`: the pinned base-unit maximum. */
  function PinnedMax(isMax: bool, data: Option<BalanceData>): (pinned: Option<string>)
    ensures pinned.Some? <==> isMax && data.Some?
    ensures pinned.Some? ==> pinned.value == data.value.maximumSendableBalance
  {
    if data.Some? && isMax then Some(data.value.maximumSendableBalance) else None
  }

  /** `!!data && exceeds(value, data.displayMaximumSendableBalance)`; the numeric
      comparison (`parseFloat(a) > parseFloat(b)`) is the parameter `exceeds`. */
  function ExceedsBalance(value: string, data: Option<BalanceData>, exceeds: (string, string) -> bool): (r: bool)
    ensures data.None? ==> !r
    ensures data.Some? ==> (r <==> exceeds(value, data.value.displayMaximumSendableBalance))
  {
    data.Some? && exceeds(value, data.value.displayMaximumSendableBalance)
  }

  /** The concatenation of the providers' candidate lists, in provider order. */
  function Concat(lists: seq<seq<Account>>): (all: seq<Account>)
    ensures forall a :: a in all <==> exists i :: 0 <= i < |lists| && a in lists[i]
  {
    if lists == [] then []
    else
      var rest := Concat(lists[1..]);
      assert forall i :: 1 <= i < |lists| ==> lists[i] == lists[1..][i - 1];
      lists[0] + rest
  }

  /** Provider order: adding a provider appends its candidates. */
  lemma {:induction false} ConcatAppend(lists: seq<seq<Account>>, last: seq<Account>)
    ensures Concat(lists + [last]) == Concat(lists) + last
    decreases |lists|
  {
    if lists == [] {
      assert [last][1..] == [];
    } else {
      assert (lists + [last])[1..] == lists[1..] + [last];
      ConcatAppend(lists[1..], last);
    }
  }

  /** The parameters `send` hands on, or the error it throws without an asset. The
      transfer is driven by exactly one of `value` (the pinned maximum, in base units)
      and `ether` (the literal amount); an empty message becomes `null`. */
  function SendProps(asset: Option<Asset>, to: string, value: string, maxVal: Option<string>, message: string): (r: Result<SendParams>)
    ensures r.Failure? <==> asset.None?
    ensures r.Failure? ==> r.error == NoAssetError
    ensures r.Success? ==> r.value.to == to && r.value.asset == asset.value.id
    ensures r.Success? ==> r.value.from.None? && r.value.id.None?
    ensures r.Success? ==> (r.value.message.None? <==> message == "")
    ensures r.Success? && message != "" ==> r.value.message == Some(message)
    ensures r.Success? ==> (r.value.value.Some? <==> r.value.ether.None?)
    ensures r.Success? && Truthy(maxVal) ==> r.value.value == maxVal
    ensures r.Success? && !Truthy(maxVal) ==> r.value.ether == Some(value)
  {
    if asset.None? then Failure(NoAssetError)
    else
      var msg := if |message| > 0 then Some(message) else None;
      if Truthy(maxVal) then Success(SendParams(to, None, asset.value.id, None, maxVal, msg, None))
      else Success(SendParams(to, None, asset.value.id, Some(value), None, msg, None))
  }

  class SendForm {
    var to: string
    var value: string
    var maxVal: Option<string>
    var asset: Option<Asset>
    var sending: bool
    var txHash: Option<string>
    var account: Option<Account>
    var accounts: seq<Account>
    var message: string
    /** The query texts of the account searches dispatched and not yet settled. */
    ghost var pendingSearches: multiset<string>

    /** Nothing in the page raises `sending` or sets `txHash`: they keep their initial values. */
    ghost predicate Valid()
      reads this
    {
      !sending && txHash.None?
    }

    /** The state the constructor builds from navigation state, query parameters and assets. */
    ghost predicate IsInitial(nav: QueryString.Params, query: QueryString.Params, assets: seq<Asset>)
      reads this
    {
      var merged := Merge(nav, query);
      && to == merged["to"] && value == merged["value"] && message == merged["message"]
      && asset == InitialAsset(if "asset" in merged then Some(merged["asset"]) else None, assets)
      && maxVal.None? && !sending && txHash.None? && account.None? && accounts == []
      && pendingSearches == multiset{}
    }

    constructor (nav: QueryString.Params, query: QueryString.Params, assets: seq<Asset>)
      ensures Valid() && IsInitial(nav, query, assets)
    {
      var merged := Merge(nav, query);
      to := merged["to"];
      value := merged["value"];
      maxVal := None;
      message := merged["message"];
      asset := InitialAsset(if "asset" in merged then Some(merged["asset"]) else None, assets);
      sending := false;
      txHash := None;
      account := None;
      accounts := [];
      pendingSearches := multiset{};
    }

    /** `canSend`: not sending and an address of exactly 42 code units (hence non-empty). */
    predicate CanSend()
      reads this
      ensures CanSend() <==> !sending && Utf16Length(to) == AddressLength
      ensures CanSend() ==> to != ""
    {
      !sending && Utf16Length(to) == AddressLength && to != ""
    }

    /** The Send button's enabling: `canSend` and not over the balance. */
    predicate SendEnabled(data: Option<BalanceData>, exceeds: (string, string) -> bool)
      reads this
      ensures data.None? ==> (SendEnabled(data, exceeds) <==> CanSend())
      ensures Valid() ==> (SendEnabled(data, exceeds) <==>
        Utf16Length(to) == AddressLength && !ExceedsBalance(value, data, exceeds))
    {
      CanSend() && !ExceedsBalance(value, data, exceeds)
    }

    /** The redirect `render` would issue once a transaction hash is known; never, as no step sets one. */
    function HashRedirect(): (path: Option<string>)
      reads this
      ensures path.Some? <==> Truthy(txHash) && asset.Some?
      ensures path.Some? ==> path.value == ReceiptPath(asset.value.id, txHash.value)
      ensures Valid() ==> path.None?
    {
      if Truthy(txHash) && asset.Some? then Some(ReceiptPath(asset.value.id, txHash.value)) else None
    }

    /** The address field changed: `to` and `account` are stored; a resolved account
        clears the candidates, an unresolved text dispatches an account search. */
    method ChangeAddress(newTo: string, resolved: Option<Account>)
      requires Valid()
      modifies this
      ensures Valid()
      ensures to == newTo && account == resolved
      ensures resolved.Some? ==> accounts == [] && pendingSearches == old(pendingSearches)
      ensures resolved.None? ==> accounts == old(accounts) && pendingSearches == old(pendingSearches) + multiset{newTo}
      ensures value == old(value) && maxVal == old(maxVal) && asset == old(asset) && message == old(message)
    {
      to, account := newTo, resolved;
      if resolved.Some? {
        accounts := [];
      } else {
        pendingSearches := pendingSearches + multiset{newTo};
      }
    }

    /** An account search settles: when every provider answered, the candidates become
        their concatenation in provider order; a rejected provider leaves them as they were.
        Nothing else is looked at, so a stale search overwrites newer candidates. */
    method SearchSettled(search: string, results: Option<seq<seq<Account>>>)
      requires Valid() && search in pendingSearches
      modifies this
      ensures Valid()
      ensures pendingSearches == old(pendingSearches) - multiset{search}
      ensures accounts == if results.Some? then Concat(results.value) else old(accounts)
      ensures to == old(to) && account == old(account) && value == old(value) && maxVal == old(maxVal)
      ensures asset == old(asset) && message == old(message)
    {
      pendingSearches := pendingSearches - multiset{search};
      if results.Some? {
        accounts := Concat(results.value);
      }
    }

    /** A candidate is picked: it becomes the account and the candidates are cleared together. */
    method SelectCandidate(picked: Account)
      requires Valid()
      modifies this
      ensures Valid()
      ensures account == Some(picked) && accounts == []
      ensures to == old(to) && value == old(value) && maxVal == old(maxVal) && asset == old(asset)
      ensures message == old(message) && pendingSearches == old(pendingSearches)
    {
      account, accounts := Some(picked), [];
    }

    /** The amount field changed: the literal is always stored; the maximum is pinned
        only for a "max" entry with balance data, and any other edit unpins it. */
    method ChangeAmount(literal: string, isMax: bool, data: Option<BalanceData>)
      requires Valid()
      modifies this
      ensures Valid()
      ensures value == literal && maxVal == PinnedMax(isMax, data)
      ensures to == old(to) && account == old(account) && accounts == old(accounts) && asset == old(asset)
      ensures message == old(message) && pendingSearches == old(pendingSearches)
    {
      value, maxVal := literal, PinnedMax(isMax, data);
    }

    /** The message field changed; the field is rendered only for an asset that supports messages. */
    method ChangeMessage(text: string)
      requires Valid() && asset.Some? && asset.value.supportsMessages
      modifies this
      ensures Valid()
      ensures message == text
      ensures to == old(to) && value == old(value) && maxVal == old(maxVal) && account == old(account)
      ensures accounts == old(accounts) && asset == old(asset) && pendingSearches == old(pendingSearches)
    {
      message := text;
    }

    /** Another asset was picked in the selector. */
    method ChangeAsset(picked: Asset)
      requires Valid()
      modifies this
      ensures Valid()
      ensures asset == Some(picked)
      ensures to == old(to) && value == old(value) && maxVal == old(maxVal) && account == old(account)
      ensures accounts == old(accounts) && message == old(message) && pendingSearches == old(pendingSearches)
    {
      asset := Some(picked);
    }

    /** A QR scan settles: a scanned address overwrites `to` and nothing else; a failed
        or cancelled scan changes nothing. */
    method ScanSettled(scanned: Option<string>)
      requires Valid()
      modifies this
      ensures Valid()
      ensures to == if scanned.Some? then scanned.value else old(to)
      ensures value == old(value) && maxVal == old(maxVal) && account == old(account) && accounts == old(accounts)
      ensures asset == old(asset) && message == old(message) && pendingSearches == old(pendingSearches)
    {
      if scanned.Some? {
        to := scanned.value;
      }
    }

    /** `send()`: the parameters passed to `actions.send`, or the error it throws; the form is unchanged. */
    method Send() returns (r: Result<SendParams>)
      ensures r == SendProps(asset, to, value, maxVal, message)
    {
      r := SendProps(asset, to, value, maxVal, message);
    }
  }

  /** Mounting the page: the query string is decoded first, and a malformed escape
      throws out of the constructor, so no form exists. */
  method Open(nav: QueryString.Params, search: string, assets: seq<Asset>) returns (form: Option<SendForm>)
    ensures form.None? <==> QueryString.ParseQuery(search).None?
    ensures form.Some? ==> fresh(form.value) && form.value.Valid()
    ensures form.Some? ==> form.value.IsInitial(nav, QueryString.ParseQuery(search).value, assets)
  {
    match QueryString.ParseQuery(search)
    case None =>
      form := None;
    case Some(query) =>
      var created := new SendForm(nav, query, assets);
      form := Some(created);
  }

  /** Two unfenced searches: the older one settles last and its candidates are shown
      next to the newer address text. */
  method StaleSearchWins(older: Account, newer: Account) returns (shownTo: string, shown: seq<Account>)
    ensures shownTo == "0xab" && shown == [older]
  {
    var form := new SendForm(map[], map[], []);
    form.ChangeAddress("0xa", None);
    form.ChangeAddress("0xab", None);
    form.SearchSettled("0xab", Some([[newer]]));
    form.SearchSettled("0xa", Some([[older]]));
    shownTo, shown := form.to, form.accounts;
  }

  /** A search that settles after a candidate was picked fills the candidate list again,
      so the resolved account and a non-empty candidate list coexist. */
  method LateSearchAfterSelect(picked: Account, found: Account) returns (chosen: Option<Account>, shown: seq<Account>)
    ensures chosen == Some(picked) && shown == [found]
  {
    var form := new SendForm(map[], map[], []);
    form.ChangeAddress("0x1", None);
    form.SelectCandidate(picked);
    form.SearchSettled("0x1", Some([[found]]));
    chosen, shown := form.account, form.accounts;
  }
}
