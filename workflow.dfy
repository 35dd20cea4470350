/**
  The hand-over between the two steps: the parameters the send form builds are
  the navigation state the confirmation step reads.
 */
module Workflow {
  import opened Wrappers
  import opened Wallet
  import SendPage
  import ConfirmPage

  /** What the form's `send` chose is what the confirmation step shows: the display form of
      the pinned maximum, else the literal amount, with an empty literal left to the asset. */
  lemma AmountOfSendProps(asset: Asset, to: string, value: string, maxVal: Option<string>, message: string,
                          displayValue: (Asset, Option<string>) -> string)
    ensures var r := SendPage.SendProps(Some(asset), to, value, maxVal, message);
      && r.Success?
      && (Truthy(maxVal) ==> ConfirmPage.DisplayAmount(r.value, asset, displayValue) == displayValue(asset, maxVal))
      && (!Truthy(maxVal) && value != "" ==> ConfirmPage.DisplayAmount(r.value, asset, displayValue) == value)
      && (!Truthy(maxVal) && value == "" ==> ConfirmPage.DisplayAmount(r.value, asset, displayValue) == displayValue(asset, None))
  {
  }

}
