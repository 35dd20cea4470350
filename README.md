# Send workflow of the burner wallet UI

This project models the two steps a transfer goes through in the wallet's user
interface, with the React rendering taken away.

- **The send form** (`SendPage`). It decodes the page's query string into a
  dictionary and merges it over the navigation state and empty defaults. It
  picks the asset to send. It then changes its local state on address edits,
  account-search results, candidate selection, amount edits (a literal amount,
  or "max", which pins the balance provider's maximum), message edits, asset
  changes and QR scans. It enables Send only for a 42-code-unit address. `send`
  builds the transfer parameters: exactly one of `value` (the pinned maximum,
  in base units) or `ether` (the literal amount), with an empty message
  becoming `null`.
- **The confirmation step** (`ConfirmPage`). Without handed-over parameters it
  redirects to `/send`. Otherwise it resolves the asset by id and shows
  `ether` or the asset's display form of `value`. Send raises `sending`, sets
  the loading advisory and starts the transfer. On success it clears the
  advisory, tells the plugin hook, and moves to the hook's redirect or to
  `/receipt/{assetId}/{hash}`. On failure it drops `sending` and logs the
  error.

Modules:
- `Text`: JavaScript's `split`, its inverse `join`, and `length` in UTF-16 code units.
- `UriComponent`: `decodeURIComponent` and `encodeURIComponent` (section 2.1 of RFC 3986, UTF-8 per RFC 3629).
- `QueryString`: `getQueryStringParams`.
- `Wallet`: the shared values, asset lookup and the receipt route.
- `SendPage`: the form as a class `SendForm` with one method per event.
- `ConfirmPage`: the step as a class `ConfirmStep`.
- `Workflow`: the hand-over between the two steps.

Modelling choices:
- Each collaborator is a parameter, or an outcome passed to a step method. This covers the asset's `send` and `getDisplayValue`, the account searches, the QR scanner, the plugin hook, the loading advisory, navigation and the error log.
- An asynchronous completion is its own step.
- The confirmation step records its calls into collaborators, in order, as a list of effects.

Where the code differs from what one might expect of it, the model follows the code:
- A piece's value is the text between its first and second `=`, not everything after the first `=`.
- Account searches are not fenced. A search that settles late overwrites the candidate list, even after a newer search or after a candidate was picked. `StaleSearchWins` and `LateSearchAfterSelect` exhibit this.
- A failed transfer leaves the loading advisory set. Only the success path clears it.
- A parameter set naming an asset that is not known is outside the confirmation step's contract (a `requires`), because the page would throw a TypeError on `undefined`: at `asset.getDisplayValue(value)` (line 29 of ConfirmPage.tsx) when `ether` is missing or empty, otherwise at `asset.name` while rendering the amount line (line 60).
- The form passes a non-empty message on even when the selected asset does not support messages. The message field is only hidden for such an asset.
- `sending` and `txHash` are never changed by the send form, so its guard reduces to the address length and its hash redirect never fires.
- Storing a value under the key `__proto__` has no effect, because it goes to the plain object's prototype setter. Its value is still decoded, and a malformed value still throws.

## Model

| member | source | states |
|---|---|---|
| Text.Split | burner-ui/src/Pages/SendPage/SendPage.tsx:32-34 | `split` gives at least one piece, no piece holds the separator, and joining the pieces gives back the input |
| Text.SplitAtFirst | burner-ui/src/Pages/SendPage/SendPage.tsx:34 | the first piece is exactly the text before the first separator; the rest is the split of what follows |
| Text.SplitNoSeparator | burner-ui/src/Pages/SendPage/SendPage.tsx:34 | text without the separator is one piece |
| Text.SplitJoin | burner-ui/src/Pages/SendPage/SendPage.tsx:32 | splitting undoes joining when no piece holds the separator |
| Text.JoinHead | burner-ui/src/Pages/SendPage/SendPage.tsx:32 | joined text starts with the first piece, followed by the separator and the join of the rest when there is more than one piece |
| Text.Utf16Length | burner-ui/src/Pages/SendPage/SendPage.tsx:134 | `length` counts UTF-16 code units: one character counts two exactly when it lies beyond U+FFFF, one otherwise; in all between the number of characters and twice that, zero only for the empty string |
| Text.Utf16LengthConcat | burner-ui/src/Pages/SendPage/SendPage.tsx:134 | code units add up over concatenation, so together with the one-character case the length is the sum of the characters' widths |
| UriComponent.HexValue | burner-ui/src/Pages/SendPage/SendPage.tsx:35 | a hexadecimal digit of either case has a value below 16, and only such digits have one |
| UriComponent.HexCaseInsensitive | burner-ui/src/Pages/SendPage/SendPage.tsx:35 | a lower-case hexadecimal digit has the value of its upper-case form, so `%c3%a9` reads as `%C3%A9` |
| UriComponent.EscapedByte | burner-ui/src/Pages/SendPage/SendPage.tsx:35 | a byte is read exactly when the text starts with `%` and two hexadecimal digits |
| UriComponent.Continuations | burner-ui/src/Pages/SendPage/SendPage.tsx:35 | the bytes read are the required number of escaped continuation bytes, all of the form `10xxxxxx` |
| UriComponent.DecodeNoEscapes | burner-ui/src/Pages/SendPage/SendPage.tsx:35 | text without `%` decodes to itself |
| UriComponent.Decode | burner-ui/src/Pages/SendPage/SendPage.tsx:35 | `decodeURIComponent` throws only on text that holds a `%`, and its result is never longer than its input |
| UriComponent.BadEscapeFails | burner-ui/src/Pages/SendPage/SendPage.tsx:35 | a `%` not followed by two hexadecimal digits makes decoding throw |
| UriComponent.Utf8Decodes | burner-ui/src/Pages/SendPage/SendPage.tsx:35 | the UTF-8 bytes of any character announce their own length, carry continuation bytes, are shortest-form and decode to that character |
| UriComponent.DecodeEncodeChar | burner-ui/src/Pages/SendPage/SendPage.tsx:35 | decoding the encoding of a character, followed by any text, yields that character, then the decoding of the text |
| UriComponent.DecodeSequence | burner-ui/src/Pages/SendPage/SendPage.tsx:35 | the escapes of a well-formed UTF-8 byte sequence decode to the character it encodes, the rest decoding on its own |
| UriComponent.DecodeAtEscape | burner-ui/src/Pages/SendPage/SendPage.tsx:35 | at an escaped lead byte followed by its escaped continuation bytes, decoding yields the encoded character and resumes after the last escape |
| UriComponent.DecodeEncode | burner-ui/src/Pages/SendPage/SendPage.tsx:35 | `decodeURIComponent(encodeURIComponent(s)) == s` for every string |
| UriComponent.Encode | burner-ui/src/Pages/SendPage/SendPage.tsx:35 | an encoded value contains no `+`, `&` or `=`, so it survives the query split and the `+` rewrite |
| QueryString.PlusToSpace | burner-ui/src/Pages/SendPage/SendPage.tsx:35 | every `+` becomes a space and every other character is kept, position by position |
| QueryString.StripLead | burner-ui/src/Pages/SendPage/SendPage.tsx:31 | at most one character is dropped, and only a leading `?` or `#`; what remains is the rest of the query |
| QueryString.PieceKey | burner-ui/src/Pages/SendPage/SendPage.tsx:34 | the key holds no `=`, opens the piece, and is followed by `=` or the end of the piece: the text before the first `=` |
| QueryString.RawValue | burner-ui/src/Pages/SendPage/SendPage.tsx:34 | there is no value exactly when the piece has no `=`; otherwise the value holds no `=` and is the text after the first `=`, up to the second `=` or the end |
| QueryString.PieceValue | burner-ui/src/Pages/SendPage/SendPage.tsx:35 | a missing or empty value stores `''`; a value makes the decode throw only when it holds a `%` |
| QueryString.AddPiece | burner-ui/src/Pages/SendPage/SendPage.tsx:34-36 | one assignment throws exactly when the piece's value fails to decode; otherwise it stores the decoded value under the piece's key unless the key is `__proto__`, and every other entry keeps its value |
| QueryString.Collect | burner-ui/src/Pages/SendPage/SendPage.tsx:32-38 | the reduce never loses a key of its accumulator; from plain keys (no `=` or `&`, not `__proto__`) and `&`-free pieces every key of the result is plain |
| QueryString.ParseQuery | burner-ui/src/Pages/SendPage/SendPage.tsx:29-40 | every key of a decoded query holds no `=` or `&` and is not `__proto__` |
| QueryString.EmptyQuery | burner-ui/src/Pages/SendPage/SendPage.tsx:30-39 | the empty query decodes to the empty dictionary |
| QueryString.LoneMarker | burner-ui/src/Pages/SendPage/SendPage.tsx:30-33 | a lone `?` or `#` is not empty: it stores `''` under the empty key |
| QueryString.DropsOneMarker | burner-ui/src/Pages/SendPage/SendPage.tsx:31-32 | one leading `?` or `#` is dropped before splitting on `&`, and only one |
| QueryString.PieceParts | burner-ui/src/Pages/SendPage/SendPage.tsx:34 | the key is the text before the first `=`, and the raw value is the text between the first and second `=` |
| QueryString.PieceWithoutEquals | burner-ui/src/Pages/SendPage/SendPage.tsx:34-35 | a piece without `=` is all key and stores `''` |
| QueryString.PieceValueDecodes | burner-ui/src/Pages/SendPage/SendPage.tsx:35 | a non-empty value is percent-decoded after `+` has become a space |
| QueryString.SinglePiece | burner-ui/src/Pages/SendPage/SendPage.tsx:30-37 | a query of one piece stores just that piece |
| QueryString.OnePair | burner-ui/src/Pages/SendPage/SendPage.tsx:33-37 | a one-pair query gives a one-entry dictionary holding the decoded value, or throws where decoding throws |
| QueryString.PlusToSpaceConcat | burner-ui/src/Pages/SendPage/SendPage.tsx:35 | the `+` rewrite acts on each part of a concatenation separately |
| QueryString.PlusBetween | burner-ui/src/Pages/SendPage/SendPage.tsx:35 | a single `+` between two plus-free texts becomes a space and nothing else changes |
| QueryString.PlusIsSpace | burner-ui/src/Pages/SendPage/SendPage.tsx:35 | a `+` in a value is read as a space |
| QueryString.EscapedPlusIsPlus | burner-ui/src/Pages/SendPage/SendPage.tsx:35 | `%2B` is read as `+`, because the `+` rewrite happens before decoding |
| QueryString.ProtoKeyIgnored | burner-ui/src/Pages/SendPage/SendPage.tsx:35 | a `__proto__` piece adds no entry, yet its value is still decoded and can make the whole decode throw |
| QueryString.CollectFails | burner-ui/src/Pages/SendPage/SendPage.tsx:33-37 | the reduce throws exactly when some piece's value fails to decode |
| QueryString.CollectKeys | burner-ui/src/Pages/SendPage/SendPage.tsx:33-37 | the keys are those of the accumulator plus every piece's key except `__proto__` |
| QueryString.LastPieceWins | burner-ui/src/Pages/SendPage/SendPage.tsx:33-37 | the value under a key is that of the last piece with that key, so a later duplicate overwrites an earlier one |
| QueryString.CollectKeeps | burner-ui/src/Pages/SendPage/SendPage.tsx:33-37 | an entry that no later piece names keeps its value |
| QueryString.PairDecodes | burner-ui/src/Pages/SendPage/SendPage.tsx:34-35 | an encoded pair is read back as its key and value |
| QueryString.PiecesWithoutAmpersand | burner-ui/src/Pages/SendPage/SendPage.tsx:32 | no piece of a built query contains `&` |
| QueryString.PiecesSplitBack | burner-ui/src/Pages/SendPage/SendPage.tsx:32 | splitting a built query on `&` gives back exactly its pieces |
| QueryString.ParseUnmarked | burner-ui/src/Pages/SendPage/SendPage.tsx:30-32 | a query not starting with `?` or `#` is split whole on `&`, nothing dropped |
| QueryString.FirstCharOfQuery | burner-ui/src/Pages/SendPage/SendPage.tsx:31 | a built query is non-empty and starts with its first key, or with `=` for an empty key |
| QueryString.CollectPieces | burner-ui/src/Pages/SendPage/SendPage.tsx:33-37 | reducing encoded pairs gives the dictionary of those pairs, later pairs winning |
| QueryString.QueryRoundTrip | burner-ui/src/Pages/SendPage/SendPage.tsx:29-40 | decoding a query built from key/value pairs with `encodeURIComponent` gives back the dictionary of those pairs |
| Wallet.FirstWithId | burner-ui/src/Pages/SendPage/SendPage.tsx:69-71 | the position found holds the first asset with the id, and no earlier asset has it |
| Wallet.FindAsset | packages/modern-ui/src/pages/ConfirmPage/ConfirmPage.tsx:27 | the lookup gives the first asset in the list with the requested id (no earlier asset has it), and gives nothing exactly when no asset has that id |
| Wallet.ReceiptPath | packages/modern-ui/src/pages/ConfirmPage/ConfirmPage.tsx:49 | the receipt route is `/receipt/`, the asset id, `/`, then the transaction hash |
| Wallet.ReceiptPathSegments | packages/modern-ui/src/pages/ConfirmPage/ConfirmPage.tsx:49 | the receipt route's third and fourth segments are the asset id and the transaction hash |
| SendPage.Merge | burner-ui/src/Pages/SendPage/SendPage.tsx:61-67 | query parameters override navigation state, which overrides the empty defaults for `to`, `value` and `message` |
| SendPage.InitialAsset | burner-ui/src/Pages/SendPage/SendPage.tsx:69-73 | the initial asset is the first with the requested id when one matches, else the first asset, and absent only when there are no assets |
| SendPage.PinnedMax | burner-ui/src/Pages/SendPage/SendPage.tsx:168 | a maximum is pinned exactly for a "max" entry with balance data, and it is that data's base-unit maximum |
| SendPage.ExceedsBalance | burner-ui/src/Pages/SendPage/SendPage.tsx:159 | without balance data the amount never exceeds the balance; with data it is the numeric comparison against the display maximum |
| SendPage.Concat | burner-ui/src/Pages/SendPage/SendPage.tsx:91-92 | a candidate is in the concatenation exactly when some provider returned it |
| SendPage.ConcatAppend | burner-ui/src/Pages/SendPage/SendPage.tsx:92 | candidates appear in provider order: another provider's candidates come after the earlier ones |
| SendPage.SendProps | burner-ui/src/Pages/SendPage/SendPage.tsx:103-121 | sending fails exactly when no asset is selected. Otherwise the parameters carry `to` and the asset id, the message is `null` exactly when it is empty, and exactly one of `value` (the pinned maximum) or `ether` (the literal) is set |
| SendPage.SendForm.constructor | burner-ui/src/Pages/SendPage/SendPage.tsx:59-87 | the initial state: merged `to`, `value`, `message`, the initial asset, no pinned maximum, not sending, no hash, no account, no candidates |
| SendPage.SendForm.CanSend | burner-ui/src/Pages/SendPage/SendPage.tsx:134 | the guard holds exactly when not sending and the address is 42 code units, which already implies it is non-empty |
| SendPage.SendForm.SendEnabled | burner-ui/src/Pages/SendPage/SendPage.tsx:158-188 | without balance data Send is enabled exactly when the guard holds; given the form's invariant, it is the address length and the balance comparison alone |
| SendPage.SendForm.HashRedirect | burner-ui/src/Pages/SendPage/SendPage.tsx:128-132 | a redirect to the receipt route is issued exactly when there is a hash and an asset, which never happens as no step sets a hash |
| SendPage.SendForm.ChangeAddress | burner-ui/src/Pages/SendPage/SendPage.tsx:142-149 | `to` and `account` are stored. A resolved account clears the candidates in the same step. An unresolved text dispatches a search and leaves the candidates. Nothing else changes |
| SendPage.SendForm.SearchSettled | burner-ui/src/Pages/SendPage/SendPage.tsx:89-94 | a settled search replaces the candidates with all providers' results in provider order, or leaves them if a provider failed. No check of which search is newest |
| SendPage.SendForm.SelectCandidate | burner-ui/src/Pages/SendPage/SendPage.tsx:155 | picking a candidate sets the account and clears the candidates together |
| SendPage.SendForm.ChangeAmount | burner-ui/src/Pages/SendPage/SendPage.tsx:166-169 | an amount edit stores the literal and pins the maximum only for "max" with balance data; every other edit unpins it |
| SendPage.SendForm.ChangeMessage | burner-ui/src/Pages/SendPage/SendPage.tsx:174-179 | a message edit, possible only for an asset that supports messages, changes only the message |
| SendPage.SendForm.ChangeAsset | burner-ui/src/Pages/SendPage/SendPage.tsx:137 | picking an asset changes only the asset |
| SendPage.SendForm.ScanSettled | burner-ui/src/Pages/SendPage/SendPage.tsx:96-101 | a successful scan overwrites `to` and nothing else; a failed scan changes nothing |
| SendPage.SendForm.Send | burner-ui/src/Pages/SendPage/SendPage.tsx:103-122 | `send` hands on the parameters `SendProps` describes and leaves the form unchanged |
| SendPage.Open | burner-ui/src/Pages/SendPage/SendPage.tsx:59-67 | mounting fails exactly when the query fails to decode, that is when some piece's value (the text between its first and second `=`) fails to percent-decode (QueryString.CollectFails); otherwise it builds the initial state from the decoded query |
| SendPage.StaleSearchWins | burner-ui/src/Pages/SendPage/SendPage.tsx:89-94 | an older search that settles last overwrites the newer search's candidates |
| SendPage.LateSearchAfterSelect | burner-ui/src/Pages/SendPage/SendPage.tsx:89-94 | a search settling after a pick leaves a resolved account beside a non-empty candidate list |
| ConfirmPage.RequestOf | packages/modern-ui/src/pages/ConfirmPage/ConfirmPage.tsx:35 | the transfer gets exactly `from`, `to`, `ether`, `value` and `message` of the handed-over parameters |
| ConfirmPage.DisplayAmount | packages/modern-ui/src/pages/ConfirmPage/ConfirmPage.tsx:29 | the amount shown is `ether` when it is non-empty, else the asset's display form of `value` |
| ConfirmPage.AmountLine | packages/modern-ui/src/pages/ConfirmPage/ConfirmPage.tsx:60 | the amount line is the amount, one space, then the asset's name |
| ConfirmPage.RedirectTarget | packages/modern-ui/src/pages/ConfirmPage/ConfirmPage.tsx:49 | after success the route is the hook's redirect when it is non-empty, else the receipt route for the asset and hash |
| ConfirmPage.DefaultRedirectNamesTransfer | packages/modern-ui/src/pages/ConfirmPage/ConfirmPage.tsx:49 | without a redirect from the hook, the route's segments name the asset and the transaction |
| ConfirmPage.AppendEffect | packages/modern-ui/src/pages/ConfirmPage/ConfirmPage.tsx:31-53 | proof helper for the model's own effect log, not a behaviour of the page: appending one effect updates the counts of started and settled transfers, the current advisory and whether the step has left |
| ConfirmPage.ConfirmStep.constructor | packages/modern-ui/src/pages/ConfirmPage/ConfirmPage.tsx:11-29 | without parameters the step only replaces the location with `/send`. With them it resolves the first asset with the given id, shows `ether` or the asset's display value, and is not sending |
| ConfirmPage.ConfirmStep.ButtonsEnabled | packages/modern-ui/src/pages/ConfirmPage/ConfirmPage.tsx:64-65 | Send and Cancel are disabled while a transfer is in flight |
| ConfirmPage.ConfirmStep.PressSend | packages/modern-ui/src/pages/ConfirmPage/ConfirmPage.tsx:31-35 | while the buttons are disabled nothing happens. Otherwise `sending` is raised, the advisory set, and one transfer started with the handed-over parameters. At most one transfer is ever in flight |
| ConfirmPage.ConfirmStep.TransferSettled | packages/modern-ui/src/pages/ConfirmPage/ConfirmPage.tsx:36-53 | on success: advisory cleared, then hook told (shown amount, hash, id), then a push to the redirect. On failure: `sending` dropped, error logged, advisory left set, no navigation |
| ConfirmPage.ConfirmStep.Cancel | packages/modern-ui/src/pages/ConfirmPage/ConfirmPage.tsx:65 | Cancel only goes back, and does nothing while the buttons are disabled |
| ConfirmPage.FailedAttempt | packages/modern-ui/src/pages/ConfirmPage/ConfirmPage.tsx:29-53 | a first attempt that the asset rejects leaves one request and a logged error, the buttons enabled again and the advisory still shown |
| ConfirmPage.RetryAfterFailure | packages/modern-ui/src/pages/ConfirmPage/ConfirmPage.tsx:29-65 | a failed transfer followed by a retry produces two identical requests, leaves the advisory set after the failure, and ends on the receipt route |
| Workflow.AmountOfSendProps | packages/modern-ui/src/pages/ConfirmPage/ConfirmPage.tsx:29 | the confirmation step shows the display form of the pinned maximum, else the literal amount; an empty literal is left to the asset's conversion |

## Left out

- Rendering: JSX, the `styles` object, `injectSheet`/`withBurner`, `Page`, `Button` and `LineItem` are not modelled. They hold no workflow logic.
- Deployment configuration (`local-wallet/src/index.tsx`) is not part of this model. Only its example asset `geth` / "Ganache ETH" appears, in `FailedAttempt` and `RetryAfterFailure`.
- SendPage.ExceedsBalance: the `parseFloat` comparison is the parameter `exceeds`, because it is floating-point parsing. Only the no-data case is proved.
- Collaborators are parameters or step inputs, because their code is not part of this model. This covers `asset.send`, `asset.getDisplayValue`, `actions.scanQrCode`, `pluginData.accountSearches`, `pluginData.sent`, `actions.setLoading`, `history` and `console.error`.
- `actions.send`, which takes the form's parameters to the confirmation step, is not part of this model. Workflow.AmountOfSendProps takes the parameters as handed over unchanged.
- Promise scheduling and React's batching of `setState` are modelled as immediate, sequential updates. A second click that lands before React re-renders with `sending` raised is therefore not modelled.
- ConfirmPage.ConfirmStep.TransferSettled: a hook or `history.push` that throws is not modelled. Such a throw would reach the same `catch` and drop `sending` after the advisory was cleared.
- Strings are sequences of Unicode scalar values, where JavaScript strings are UTF-16 code units. Lone surrogates cannot be represented. `length` is computed in code units.
- Navigation state is a dictionary of strings. An absent state is the empty dictionary, and non-string values are not modelled.
- Rendering the form with no asset at all would throw (`asset.supportsMessages()` on `undefined`). This crash is not modelled; the form only reports "Asset not selected" from `send`.
- The Send button's enabling is modelled (SendPage.SendForm.SendEnabled), but SendPage.SendForm.Send does not require it, because `send()` itself does not check it.
