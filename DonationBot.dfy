/**
 * The donation bot's per-user flow: the process-wide maps of users awaiting an
 * amount for a chosen asset and of pending invoices (main.py:35-36), driven by
 * the `/start`, asset-choice, back and amount handlers and by one pass of the
 * payment watcher.
 *
 * The payment service's two calls and the message send are parameters:
 * `createInvoice` answers with an invoice id or fails (`None`), `getInvoices`
 * answers with the list of invoices or fails, and `sendOk(j)` says whether the
 * confirmation sent for the `j`-th item of that list is delivered.
 */
module DonationBot {
  import opened Wrappers
  import opened Amount
  import opened Callback
  import opened Watcher

  /** What the asset-choice handler replies. */
  datatype AssetReply = UnknownAsset | AskAmount(asset: string)

  /** What the amount handler replies. */
  datatype AmountReply =
    | Ignored
    | AskAgain
    | InvoiceFailed
    | InvoiceCreated(invoiceId: InvoiceId, amount: Decimal, asset: string)

  class DonationState {
    /** `AWAIT_AMOUNT`: the asset each user has chosen and is to type an amount for. */
    var awaitAmount: map<UserId, string>
    /** `PENDING`: the user each unpaid invoice was created for. */
    var pending: map<InvoiceId, UserId>

    /** Only an offered asset is ever stored as a user's choice. */
    ghost predicate Valid()
      reads this
    {
      forall u :: u in awaitAmount ==> awaitAmount[u] in Assets
    }

    /** Both maps start empty (main.py:35-36). */
    constructor ()
      ensures Valid()
      ensures awaitAmount == map[] && pending == map[]
    {
      awaitAmount := map[];
      pending := map[];
    }

    /** `/start`: the caller's flow is reset; a caller with no flow changes nothing. */
    method Start(user: UserId)
      requires Valid()
      modifies this
      ensures Valid()
      ensures awaitAmount == old(awaitAmount) - {user}
      ensures user !in old(awaitAmount) ==> awaitAmount == old(awaitAmount)
      ensures pending == old(pending)
    {
      awaitAmount := awaitAmount - {user};
    }

    /** The `back:start` button: the same reset as `/start`. */
    method BackToStart(user: UserId)
      requires Valid()
      modifies this
      ensures Valid()
      ensures awaitAmount == old(awaitAmount) - {user}
      ensures user !in old(awaitAmount) ==> awaitAmount == old(awaitAmount)
      ensures pending == old(pending)
    {
      awaitAmount := awaitAmount - {user};
    }

    /**
     * An `asset:<X>` button: an offered asset becomes the user's choice,
     * replacing any earlier one; anything else changes nothing.
     */
    method AssetChosen(user: UserId, data: string) returns (reply: AssetReply)
      requires Valid()
      requires AssetPrefix <= data
      modifies this
      ensures Valid()
      ensures var asset := data[|AssetPrefix|..];
        if asset in Assets then
          reply == AskAmount(asset) && awaitAmount == old(awaitAmount)[user := asset]
        else
          reply == UnknownAsset && awaitAmount == old(awaitAmount)
      ensures pending == old(pending)
    {
      ChosenAssetIff(data);
      match ChosenAsset(data)
      case None =>
        reply := UnknownAsset;
      case Some(asset) =>
        awaitAmount := awaitAmount[user := asset];
        reply := AskAmount(asset);
    }

    /**
     * Text typed by a user. Without a chosen asset it is ignored. An amount that
     * is not a positive decimal keeps the choice for another try. Otherwise an
     * invoice is asked for in the chosen asset. If the service issues one, the
     * choice is dropped and the invoice recorded as pending for the user. If it
     * fails, the choice is dropped only once the error reply has gone out
     * (`failureReplyOk`): the reply is awaited before the pop, and a reply that
     * raises ends the handler with the choice still stored.
     */
    method AmountInput(user: UserId, text: string, createInvoice: (string, Decimal) -> Option<InvoiceId>,
                       failureReplyOk: bool)
      returns (reply: AmountReply)
      requires Valid()
      modifies this
      ensures Valid()
      ensures user !in old(awaitAmount) ==>
        reply == Ignored && awaitAmount == old(awaitAmount) && pending == old(pending)
      ensures user in old(awaitAmount) && AcceptAmount(text).None? ==>
        reply == AskAgain && awaitAmount == old(awaitAmount) && pending == old(pending)
      ensures user in old(awaitAmount) && AcceptAmount(text).Some? ==>
        var asset := old(awaitAmount)[user];
        var amount := AcceptAmount(text).value;
        && Value(amount) > 0.0
        && asset in Assets
        && match createInvoice(asset, amount)
           case None =>
             && reply == InvoiceFailed
             && awaitAmount == (if failureReplyOk then old(awaitAmount) - {user} else old(awaitAmount))
             && pending == old(pending)
           case Some(id) =>
             && reply == InvoiceCreated(id, amount, asset)
             && awaitAmount == old(awaitAmount) - {user}
             && pending == old(pending)[id := user]
      ensures reply.InvoiceCreated? ==> reply.asset in Assets && reply.invoiceId in pending
    {
      if user !in awaitAmount {
        return Ignored;
      }
      var asset := awaitAmount[user];
      var accepted := AcceptAmount(text);
      if accepted.None? {
        return AskAgain;
      }
      var amount := accepted.value;
      PositiveIffValuePositive(amount);
      var invoice := createInvoice(asset, amount);
      match invoice
      case None =>
        if failureReplyOk {
          awaitAmount := awaitAmount - {user};
        }
        reply := InvoiceFailed;
      case Some(id) =>
        awaitAmount := awaitAmount - {user};
        pending := pending[id := user];
        reply := InvoiceCreated(id, amount, asset);
    }

    /**
     * One pass of the watcher. With nothing pending the service is not asked;
     * otherwise it is asked about exactly the pending ids, and if it answers,
     * the answer is folded as `Run` describes. Returns the users confirmed to.
     */
    method WatcherPass(getInvoices: set<InvoiceId> -> Option<seq<Invoice>>, sendOk: nat -> bool)
      returns (notified: seq<UserId>)
      requires Valid()
      modifies this
      ensures Valid()
      ensures awaitAmount == old(awaitAmount)
      ensures old(pending) == map[] || getInvoices(old(pending).Keys).None? ==>
        pending == old(pending) && notified == []
      ensures old(pending) != map[] && getInvoices(old(pending).Keys).Some? ==>
        var st := Run(old(pending), getInvoices(old(pending).Keys).value, sendOk);
        pending == st.pending && notified == st.notified
    {
      notified := [];
      if pending == map[] {
        return;
      }
      var answer := getInvoices(pending.Keys);
      if answer.None? {
        return;
      }
      var items := answer.value;
      ghost var start := pending;
      ghost var popped: seq<InvoiceId> := [];
      var aborted := false;
      var i := 0;
      while i < |items| && !aborted
        invariant 0 <= i <= |items|
        invariant Run(start, items[..i], sendOk) == PassState(pending, popped, notified, aborted)
        invariant awaitAmount == old(awaitAmount)
      {
        var inv := items[i];
        if inv.status == Paid && inv.invoiceId in pending {
          var user := pending[inv.invoiceId];
          pending := pending - {inv.invoiceId};
          popped := popped + [inv.invoiceId];
          if user != 0 {
            if sendOk(i) {
              notified := notified + [user];
            } else {
              aborted := true;
            }
          }
        }
        assert items[..i + 1][..i] == items[..i];
        i := i + 1;
      }
      if aborted {
        RunAbortedIsFinal(start, items, i, sendOk);
      } else {
        assert items[..i] == items;
      }
    }
  }
}
