/**
  The values both steps of the send workflow share: assets, accounts, balance
  data, the transfer parameters handed from the send form to the confirmation
  step, asset lookup by id, and the receipt route.
 */
module Wallet {
  import opened Wrappers
  import opened Text

  /** An asset, reduced to what the workflow reads of it. Its `getDisplayValue`
      and `send` capabilities are collaborators and appear as parameters and outcomes. */
  datatype Asset = Asset(id: string, name: string, supportsMessages: bool)

  /** A recipient found by an account search. */
  datatype Account = Account(address: string, name: Option<string>)

  /** The balance provider's report for an asset (both amounts as decimal strings). */
  datatype BalanceData = BalanceData(maximumSendableBalance: string, displayMaximumSendableBalance: string)

  /** The transfer parameters (`SendParams`); `value` is in base units, `ether` in display units. */
  datatype SendParams = SendParams(
    to: string,
    from: Option<string>,
    asset: string,
    ether: Option<string>,
    value: Option<string>,
    message: Option<string>,
    id: Option<string>)

  /** JavaScript truthiness of a string that may be `null` or `undefined`. */
  predicate Truthy(s: Option<string>)
  {
    s.Some? && s.value != ""
  }

  /** The position of the first asset with id `id`, or `|assets|` when there is none. */
  function FirstWithId(assets: seq<Asset>, id: string): (i: nat)
    ensures i <= |assets|
    ensures i < |assets| ==> assets[i].id == id
    ensures forall j :: 0 <= j < i ==> assets[j].id != id
  {
    if assets == [] then 0
    else if assets[0].id == id then 0
    else 1 + FirstWithId(assets[1..], id)
  }

  /** `assets.filter(a => a.id === id)[0]`, `None` standing for `undefined`. */
  function FindAsset(assets: seq<Asset>, id: string): (r: Option<Asset>)
    ensures r.None? <==> forall a <- assets :: a.id != id
    ensures r.Some? ==> r.value.id == id && r.value in assets
    ensures r.Some? ==> FirstWithId(assets, id) < |assets| && r.value == assets[FirstWithId(assets, id)]
  {
    var i := FirstWithId(assets, id);
    if i < |assets| then Some(assets[i]) else None
  }

  /** The default receipt route for a transfer: `/receipt/{assetId}/{hash}`. */
  function ReceiptPath(assetId: string, hash: string): (path: string)
    ensures |path| == |"/receipt/"| + |assetId| + 1 + |hash|
    ensures path[..9] == "/receipt/" && path[9..9 + |assetId|] == assetId
    ensures path[9 + |assetId|] == '/' && path[10 + |assetId|..] == hash
  {
    "/receipt/" + assetId + "/" + hash
  }

  /** The receipt route carries the asset id and the hash as its third and fourth segments. */
  lemma ReceiptPathSegments(assetId: string, hash: string)
    requires '/' !in assetId && '/' !in hash
    ensures Split(ReceiptPath(assetId, hash), '/') == ["", "receipt", assetId, hash]
  {
    var path := ReceiptPath(assetId, hash);
    assert path == "" + ['/'] + ("receipt" + ['/'] + (assetId + ['/'] + hash));
    SplitAtFirst("", '/', "receipt" + ['/'] + (assetId + ['/'] + hash));
    SplitAtFirst("receipt", '/', assetId + ['/'] + hash);
    SplitAtFirst(assetId, '/', hash);
    SplitNoSeparator(hash, '/');
  }
}
