/**
  The confirmation step (`ConfirmPage`): it redirects to the send page when no
  transfer parameters were handed over, resolves the asset by id, shows the
  amount, and runs the transfer under a `sending` flag. What the step does to
  its collaborators (navigation, the loading advisory, the asset's `send`, the
  plugin hook `sent`, the error log) is recorded in order as a list of
  effects. The transfer's completion is a separate step whose outcome and hook
  answer are inputs.
 */
module ConfirmPage {
  import opened Wrappers
  import opened Wallet
  import Text

  /** The advisory the step shows while a transfer runs. */
  const SendingAdvisory: string := "Sending..."

  /** Where the step sends the user when no parameters were handed over. */
  const SendPath: string := "/send"

  datatype NavAction = Replace(path: string) | Push(path: string) | GoBack

  /** The argument of the asset's `send`. */
  datatype TransferRequest = TransferRequest(
    from: Option<string>, to: string, ether: Option<string>, value: Option<string>, message: Option<string>)

  datatype Receipt = Receipt(transactionHash: string)

  /** The argument of the plugin hook `sent`. */
  datatype SentEvent = SentEvent(
    asset: Asset, from: Option<string>, to: string, ether: string, message: Option<string>,
    receipt: Receipt, hash: string, id: Option<string>)

  /** How the asset's `send` settles: with a receipt, or by throwing. */
  datatype TransferOutcome = Confirmed(receipt: Receipt) | Rejected

  /** One call into a collaborator, in the order the step makes them. */
  datatype Effect =
    | Navigate(action: NavAction)
    | SetLoading(advisory: Option<string>)
    | Transfer(request: TransferRequest)
    | Sent(event: SentEvent)
    | LogError

  /** `ether || asset.getDisplayValue(value)`; `displayValue` is the asset's conversion. */
  function DisplayAmount(params: SendParams, asset: Asset, displayValue: (Asset, Option<string>) -> string): (amount: string)
    ensures Truthy(params.ether) ==> amount == params.ether.value
    ensures !Truthy(params.ether) ==> amount == displayValue(asset, params.value)
  {
    if Truthy(params.ether) then params.ether.value else displayValue(asset, params.value)
  }

  /** The amount line: `${amount} ${asset.name}`. */
  function AmountLine(amount: string, asset: Asset): (line: string)
    ensures |line| == |amount| + 1 + |asset.name|
    ensures line[..|amount|] == amount && line[|amount|] == ' ' && line[|amount| + 1..] == asset.name
  {
    amount + " " + asset.name
  }

  /** `{from, to, ether, value, message}` taken from the handed-over parameters. */
  function RequestOf(params: SendParams): (req: TransferRequest)
    ensures req.to == params.to && req.from == params.from && req.message == params.message
    ensures req.ether == params.ether && req.value == params.value
  {
    TransferRequest(params.from, params.to, params.ether, params.value, params.message)
  }

  /** `redirect || /receipt/{assetId}/{hash}`. */
  function RedirectTarget(redirect: Option<string>, assetId: string, hash: string): (path: string)
    ensures Truthy(redirect) ==> path == redirect.value
    ensures !Truthy(redirect) ==> path == ReceiptPath(assetId, hash)
  {
    if Truthy(redirect) then redirect.value else ReceiptPath(assetId, hash)
  }

  /** Without a redirect from the hook, the route names the asset and the transaction. */
  lemma DefaultRedirectNamesTransfer(redirect: Option<string>, assetId: string, hash: string)
    requires !Truthy(redirect)
    requires '/' !in assetId && '/' !in hash
    ensures Text.Split(RedirectTarget(redirect, assetId, hash), '/') == ["", "receipt", assetId, hash]
  {
    ReceiptPathSegments(assetId, hash);
  }

  /** The number of transfers started. */
  function Started(effects: seq<Effect>): nat
  {
    if effects == [] then 0
    else Started(effects[..|effects| - 1]) + (if effects[|effects| - 1].Transfer? then 1 else 0)
  }

  /** The number of transfers settled: each ends in a hook call or a logged error. */
  function Settled(effects: seq<Effect>): nat
  {
    if effects == [] then 0
    else Settled(effects[..|effects| - 1]) + (if effects[|effects| - 1].Sent? || effects[|effects| - 1].LogError? then 1 else 0)
  }

  /** The loading advisory last set, `None` when it was never set or last cleared. */
  function Advisory(effects: seq<Effect>): Option<string>
  {
    if effects == [] then None
    else if effects[|effects| - 1].SetLoading? then effects[|effects| - 1].advisory
    else Advisory(effects[..|effects| - 1])
  }

  /** Whether the step has navigated away. */
  predicate Departed(effects: seq<Effect>)
  {
    exists i :: 0 <= i < |effects| && effects[i].Navigate?
  }

  lemma AppendEffect(effects: seq<Effect>, e: Effect)
    ensures (effects + [e])[..|effects|] == effects
    ensures Started(effects + [e]) == Started(effects) + (if e.Transfer? then 1 else 0)
    ensures Settled(effects + [e]) == Settled(effects) + (if e.Sent? || e.LogError? then 1 else 0)
    ensures Advisory(effects + [e]) == if e.SetLoading? then e.advisory else Advisory(effects)
    ensures Departed(effects + [e]) <==> Departed(effects) || e.Navigate?
  {
    assert (effects + [e])[..|effects|] == effects;
    if Departed(effects) {
      var i :| 0 <= i < |effects| && effects[i].Navigate?;
      assert (effects + [e])[i] == effects[i];
    }
  }

  class ConfirmStep {
    /** The parameters handed over in navigation state, if any. */
    const params: Option<SendParams>
    /** The asset they name, resolved at mount. */
    const asset: Option<Asset>
    /** The amount shown. */
    const amount: string
    /** The `sending` flag (`useState(false)`). */
    var sending: bool
    /** Every call made into a collaborator, in order. */
    var effects: seq<Effect>
    /** Whether a transfer is awaiting its outcome. */
    ghost var inFlight: bool

    /** At most one transfer is in flight, and only while `sending` is raised and the
        advisory is shown; every transfer carries the handed-over parameters; a step
        without parameters has only redirected. */
    ghost predicate Valid()
      reads this
    {
      && (params.None? ==> effects == [Navigate(Replace(SendPath))] && !sending && !inFlight)
      && (params.Some? ==> asset.Some? && asset.value.id == params.value.asset)
      && Started(effects) == Settled(effects) + (if inFlight then 1 else 0)
      && (inFlight ==> sending && !Departed(effects) && Advisory(effects) == Some(SendingAdvisory))
      && (forall i :: 0 <= i < |effects| && effects[i].Transfer? ==> effects[i].request == RequestOf(params.value))
    }

    /** The first render: the missing-state guard, the asset lookup and the amount. A
        present state whose asset id matches no asset is outside the step's contract. */
    constructor (state: Option<SendParams>, assets: seq<Asset>, displayValue: (Asset, Option<string>) -> string)
      requires state.Some? ==> FindAsset(assets, state.value.asset).Some?
      ensures Valid() && params == state && !sending && !inFlight
      ensures state.None? ==> effects == [Navigate(Replace(SendPath))]
      ensures state.Some? ==> effects == [] && asset == FindAsset(assets, state.value.asset)
      ensures state.Some? ==> amount == DisplayAmount(state.value, asset.value, displayValue)
    {
      params := state;
      sending := false;
      inFlight := false;
      if state.None? {
        asset := None;
        amount := "";
        effects := [Navigate(Replace(SendPath))];
      } else {
        var found := FindAsset(assets, state.value.asset);
        asset := found;
        amount := DisplayAmount(state.value, found.value, displayValue);
        effects := [];
      }
    }

    /** Send and Cancel are enabled only while nothing is being sent. */
    function ButtonsEnabled(): (enabled: bool)
      reads this
      ensures Valid() && inFlight ==> !enabled
    {
      !sending
    }

    /** Send pressed. While `sending` the button is disabled and nothing happens; otherwise
        `sending` is raised, the advisory set, and the transfer started. */
    method PressSend()
      requires Valid() && params.Some? && !Departed(effects)
      modifies this
      ensures Valid()
      ensures !old(ButtonsEnabled()) ==> sending && effects == old(effects) && inFlight == old(inFlight)
      ensures old(ButtonsEnabled()) ==> sending && inFlight
      ensures old(ButtonsEnabled()) ==> effects == old(effects) + [SetLoading(Some(SendingAdvisory)), Transfer(RequestOf(params.value))]
    {
      if ButtonsEnabled() {
        sending := true;
        AppendEffect(effects, SetLoading(Some(SendingAdvisory)));
        effects := effects + [SetLoading(Some(SendingAdvisory))];
        AppendEffect(effects, Transfer(RequestOf(params.value)));
        effects := effects + [Transfer(RequestOf(params.value))];
        inFlight := true;
      }
    }

    /** The transfer settles. On a receipt: the advisory is cleared, the hook told of the
        transfer (with the shown amount), and the step moves to the hook's redirect or the
        receipt route. On an error: `sending` drops so the user may retry, the error is
        logged, the advisory stays, and the step stays where it is. */
    method TransferSettled(outcome: TransferOutcome, redirect: Option<string>)
      requires Valid() && inFlight
      modifies this
      ensures Valid() && !inFlight
      ensures outcome.Confirmed? ==> sending && Departed(effects)
      ensures outcome.Confirmed? ==> effects == old(effects) + [
        SetLoading(None),
        Sent(SentEvent(asset.value, params.value.from, params.value.to, amount, params.value.message,
                       outcome.receipt, outcome.receipt.transactionHash, params.value.id)),
        Navigate(Push(RedirectTarget(redirect, asset.value.id, outcome.receipt.transactionHash)))]
      ensures outcome.Rejected? ==> !sending && effects == old(effects) + [LogError]
      ensures outcome.Rejected? ==> Advisory(effects) == Some(SendingAdvisory) && !Departed(effects)
    {
      if outcome.Confirmed? {
        var p := params.value;
        var hash := outcome.receipt.transactionHash;
        var event := SentEvent(asset.value, p.from, p.to, amount, p.message, outcome.receipt, hash, p.id);
        var target := RedirectTarget(redirect, asset.value.id, hash);
        AppendEffect(effects, SetLoading(None));
        effects := effects + [SetLoading(None)];
        AppendEffect(effects, Sent(event));
        effects := effects + [Sent(event)];
        AppendEffect(effects, Navigate(Push(target)));
        effects := effects + [Navigate(Push(target))];
      } else {
        sending := false;
        AppendEffect(effects, LogError);
        effects := effects + [LogError];
      }
      inFlight := false;
    }

    /** Cancel pressed: while enabled it only goes back. */
    method Cancel()
      requires Valid() && params.Some? && !Departed(effects)
      modifies this
      ensures Valid() && inFlight == old(inFlight) && sending == old(sending)
      ensures !old(ButtonsEnabled()) ==> effects == old(effects)
      ensures old(ButtonsEnabled()) ==> effects == old(effects) + [Navigate(GoBack)]
    {
      if ButtonsEnabled() {
        AppendEffect(effects, Navigate(GoBack));
        effects := effects + [Navigate(GoBack)];
      }
    }
  }

  /** A first attempt at sending 1.5 Ganache ETH that the asset rejects: the step is
      left with its buttons enabled again and the advisory still shown. */
  method FailedAttempt(to: string) returns (step: ConfirmStep)
    ensures fresh(step) && step.Valid() && !step.inFlight && step.ButtonsEnabled()
    ensures step.params == Some(SendParams(to, None, "geth", Some("1.5"), None, None, None))
    ensures step.asset == Some(Asset("geth", "Ganache ETH", false)) && step.amount == "1.5"
    ensures step.effects == [SetLoading(Some(SendingAdvisory)), Transfer(TransferRequest(None, to, Some("1.5"), None, None)), LogError]
    ensures Advisory(step.effects) == Some(SendingAdvisory) && !Departed(step.effects)
  {
    var geth := Asset("geth", "Ganache ETH", false);
    var state := SendParams(to, None, "geth", Some("1.5"), None, None, None);
    step := new ConfirmStep(Some(state), [geth], (a: Asset, v: Option<string>) => "");
    assert step.asset == Some(geth);
    step.PressSend();
    step.TransferSettled(Rejected, None);
  }

  /** A transfer that fails and is retried: one request per press, the advisory left set
      after the failure, and on success the default receipt route. */
  method RetryAfterFailure(to: string) returns (shown: string, effects: seq<Effect>)
    ensures shown == "1.5 Ganache ETH"
    ensures |effects| == 8
    ensures effects[1] == effects[4] == Transfer(TransferRequest(None, to, Some("1.5"), None, None))
    ensures effects[2] == LogError && Advisory(effects[..3]) == Some(SendingAdvisory)
    ensures effects[5] == SetLoading(None)
    ensures effects[7] == Navigate(Push("/receipt/geth/0xfeed"))
  {
    var step := FailedAttempt(to);
    ghost var failed := step.effects;
    step.PressSend();
    assert ReceiptPath("geth", "0xfeed") == "/receipt/geth/0xfeed";
    step.TransferSettled(Confirmed(Receipt("0xfeed")), None);
    assert step.effects[..|failed|] == failed;
    shown, effects := AmountLine(step.amount, step.asset.value), step.effects;
  }
}
