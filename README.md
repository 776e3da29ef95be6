# Donation bot: the donation flow

A model of the donation flow of the Telegram donation bot in `main.py`. The bot
keeps two process-wide maps:

- `AWAIT_AMOUNT`: the asset each user has chosen and is now to type an amount for;
- `PENDING`: the user each unpaid Crypto Pay invoice was created for.

Four handlers change them:

- `/start` and the `back:start` button forget the caller's choice;
- an `asset:<X>` button stores an offered asset as the caller's choice;
- the amount typed next is stripped, its commas become points, and it must be a
  decimal strictly greater than zero; an accepted amount drops the choice and,
  if the payment service issues an invoice, records the invoice as pending.

A background watcher asks the service, every few seconds, about all pending
invoices. It pops each one reported `paid` and sends its payer a confirmation.

Modules:

- `Wrappers`: `Option` and a first-index function.
- `Amount`: Python's `str.strip()`, the comma replacement, a decimal parser,
  the positivity test, and the plain-notation printing of a decimal (the
  inverse of the parser).
- `Callback`: the assets offered and the `asset:<X>` callback data.
- `Watcher`: one pass of the watcher as a fold (`Run`) of one loop step
  (`Step`) over the service's answer, with its properties.
- `DonationBot`: the class `DonationState` holding both maps, with one method
  per handler and one for a watcher pass. `WatcherPass` is a loop proved
  against `Run`.

The payment service and the message send are parameters:

- `createInvoice(asset, amount)` returns an invoice id, or `None` when the call raises;
- `getInvoices(ids)` returns the answer's items, or `None` when the call raises;
- `sendOk(j)` says whether the confirmation for item `j` of the answer is delivered.

## Model

| member | source | states |
|---|---|---|
| DonationBot.DonationState.constructor | main.py:35-36 | both maps start empty; every stored choice is an offered asset (`Valid`) |
| DonationBot.DonationState.Start | main.py:58-60 | the caller's entry is removed from `AWAIT_AMOUNT`; an absent entry changes nothing; every other user's entry and all of `PENDING` are unchanged |
| DonationBot.DonationState.BackToStart | main.py:104-110 | the same reset as `/start`: only the caller's entry goes, `PENDING` is unchanged |
| DonationBot.DonationState.AssetChosen | main.py:81-98 | for data `asset:<X>`: if `X` is offered it becomes the caller's choice, replacing an earlier one; otherwise neither map changes |
| DonationBot.DonationState.AmountInput | main.py:114-147 | no choice: ignored, nothing changes and no invoice is asked for; an amount that is refused: the choice is kept and `PENDING` is unchanged; an accepted amount is strictly positive and the invoice is asked for in an offered asset; an issued invoice drops the choice and adds `invoice -> user` to `PENDING`; a failed one leaves `PENDING` unchanged and drops the choice only if the error reply was delivered, since that reply is awaited before the pop |
| DonationBot.DonationState.WatcherPass | main.py:158-168 | nothing pending, or no answer: nothing changes; otherwise the service is asked about exactly the pending ids, and the new `PENDING` and the users confirmed to are those of `Run` over its answer; `AWAIT_AMOUNT` is unchanged |
| Watcher.RunPopsOnlyPaid | main.py:161-163 | a pass pops only pending invoices reported `paid`, each at most once; every other entry stays with its user; an invoice not reported paid stays pending |
| Watcher.RunNotifiesPopped | main.py:163-168 | the confirmations sent are exactly one per popped invoice with a non-zero user id, in order, except the one whose failed send ended the pass |
| Watcher.RunNotifiesOnlyPayers | main.py:163-168 | a pass never sends to user id 0, and each confirmation goes to the payer of an invoice it popped |
| Watcher.DeliveredToPayers | main.py:163-164 | each confirmation owed for a list of invoices goes to the non-zero user of one of them |
| Watcher.RunCompletes | main.py:161-163 | if every send succeeds the pass is not cut short, and then exactly the pending invoices reported paid are removed |
| Watcher.RunAbortedIsFinal | main.py:161-170 | once a send has raised, the rest of the answer is not looked at |
| Watcher.RepeatedReportsCountOnce | main.py:161-168 | however often the answer repeats a report, a pass sends no more confirmations than it pops invoices, and pops no more invoices than there are distinct pending invoices reported paid |
| Watcher.DuplicateReportConfirmedOnce | main.py:161-168 | an example: one pending invoice reported paid twice, with the first send delivered, is popped once and confirmed once |
| Watcher.PaidIdsLast | main.py:161-162 | the ids reported paid by an answer are those of its prefix plus its last item's, if that one is paid |
| Watcher.Delivered | main.py:163-164 | at most one confirmation is owed per popped invoice |
| Callback.AfterFirstColon | main.py:89 | `split(":", 1)[1]` exists exactly when the data has a colon, and is everything after the first colon |
| Callback.ChosenAsset | main.py:89-90 | an asset is chosen only if it is one of the four offered |
| Callback.AfterPrefix | main.py:81-89 | data that passes the `asset:` filter selects everything after the prefix |
| Callback.ChosenAssetIff | main.py:81-90 | prefixed data selects an asset exactly when the rest names an offered asset, and then it selects that asset |
| Callback.KeyboardButtonSelectsItsAsset | main.py:51-52 | each button of the asset keyboard passes the filter and selects its own asset |
| Wrappers.IndexOf | main.py:89 | the first index of a character, or the length when it is absent |
| Amount.FirstNonSpace | main.py:120 | the index of the first non-blank character: all before it are blank |
| Amount.EndNonSpace | main.py:120 | one past the last non-blank character: all after it are blank |
| Amount.StripKeepsMiddle | main.py:120 | `strip()` keeps one slice of the text, with only blanks before and after it, and the slice does not start or end with a blank |
| Amount.NonSpaceIsKept | main.py:120 | every non-blank character lies inside what `strip()` keeps |
| Amount.StripOfStripped | main.py:120 | `strip()` leaves a text that does not start or end with a blank unchanged |
| Amount.StripIgnoresBlanks | main.py:120 | blanks added before and after a text do not change what `strip()` keeps |
| Amount.BlanksAroundIgnored | main.py:120-124 | blanks around the typed amount change neither the normalised text nor whether and how the amount is accepted |
| Amount.ReplaceCommas | main.py:120 | `replace(",", ".")` keeps the length |
| Amount.NormalizeAt | main.py:120 | each kept character lands at its shifted place in the normalised text, a comma turned into a point |
| Amount.NormalizeShape | main.py:120 | the normalised text has no comma, no blank at either end, and is no longer than the input |
| Amount.NormalizeIdempotent | main.py:120 | normalising twice is the same as normalising once |
| Amount.ParseUnsignedIff | main.py:122 | the unsigned parser succeeds exactly on digits with at most one point and at least one digit |
| Amount.ParseDecimalIff | main.py:122 | `Decimal(raw)` succeeds exactly on an optionally signed such literal |
| Amount.PositiveIffValuePositive | main.py:123-124 | the positivity test on the sign and coefficient is `amount > 0` on the value; `-0` and `0.00` are refused |
| Amount.AcceptAmountMeaning | main.py:120-127 | an amount is accepted exactly when the normalised text parses and its value is strictly greater than zero, and the accepted amount is the parsed one |
| Amount.SeparatorsBecomePoints | main.py:120 | two commas or points in the text are two points in the normalised text |
| Amount.TwoSeparatorsRefused | main.py:120-127 | a text with two separators, such as `1,000.50`, is refused |
| Amount.CommaIsDecimalPoint | main.py:120-124 | `<digits>,<digits>` is read with the comma as decimal point: `5,5` is 5.5 and `1,000` is 1 |
| Amount.NatDigits | main.py:150 | the digits of a number denote it and have no leading zero |
| Amount.LeadingZeros | main.py:150 | leading zeros do not change the value of a digit string |
| Amount.PaddedDigits | main.py:150 | the padded coefficient has more digits than the scale and denotes the coefficient |
| Amount.ParseFormatUnsigned | main.py:150 | the printed unsigned part starts with a digit and parses back to the coefficient and scale |
| Amount.ParseFormat | main.py:150 | the amount as printed in the invoice reply parses back to the same decimal, coefficient and scale alike |
| Amount.NormalizeFormat | main.py:150 | normalising the printed amount changes nothing |
| Amount.AcceptFormat | main.py:120-150 | the printed amount is accepted back exactly when it is positive, as the same decimal |

## Left out

- `pick_asset` (the `flow:crypto` button), the keyboards, the message texts and `cb.answer` calls: user interface only. Every reply is sent after the handler's map updates or on a path that changes nothing, or is wrapped in `try`, except the error reply of `amount_input` (main.py:139-143), whose delivery is the `failureReplyOk` parameter of `AmountInput`.
- Dispatch by aiogram filters: the model does not decide which handler a message reaches (for example, `/start` never reaches the amount handler). `AssetChosen` requires the `asset:` prefix the filter guarantees.
- The Crypto Pay client: `create_invoice` and `get_invoices` are the `createInvoice` and `getInvoices` parameters, and `send_message` is `sendOk`. The text of a raised exception and the watcher's `print` are left out.
- `float(amount)` passed to `create_invoice`: a floating-point conversion for the service; the oracle receives the decimal itself.
- `AcceptAmount`: the model's decimal literal is an optional sign, ASCII digits and at most one point, with at least one digit. Texts such as `1e2`, `1_000`, `Infinity` and amounts written in non-ASCII digits are refused by the model (so `AmountInput` answers `AskAgain` and keeps the choice), while Python's `Decimal` accepts them and main.py:123 lets the positive ones through. `NaN` forms are refused by both, because comparing them at main.py:123 raises.
- `str(amount)` in the invoice reply switches to exponent notation for very small amounts; `Format` covers only plain notation.
- `ParseDecimal`: states its grammar in `ParseDecimalIff`, not on itself.
- The `while True` loop, `asyncio.sleep` and `create_task`: one pass of the watcher is modelled. Handlers that run while the pass waits on the service or on a send are not modelled; the pass is uninterrupted.
- `AmountInput`, `Start`, `BackToStart`, `AssetChosen`: each handler is modelled as one uninterrupted step. aiogram runs updates as concurrent tasks, and `amount_input` reads the choice (main.py:116), waits for `create_invoice` (main.py:133) and only then pops (main.py:146). So two amounts typed in quick succession can create two invoices, and a `/start` followed by a new asset choice made during that wait is erased by the pop. The model does not capture such interleavings.
- Token loading and the `SystemExit` checks.
- Invoice ids are integers here; the annotation says `str`, and the model only compares them.
- An invoice that expires unpaid stays in `PENDING` forever; an entry is popped before its confirmation is sent, so a failed send loses that confirmation. Both behaviours are modelled as written, with no claim that they are intended.
