/**
 * One pass of the payment watcher (main.py:158-168): the invoice service is
 * asked about every pending invoice, and for each item of its answer that is
 * reported paid the invoice is popped from the pending map and its payer is
 * sent a confirmation.
 *
 * A pass is specified by `Run`, a left fold of `Step` over the service's items.
 * A confirmation that cannot be delivered raises in the source and ends the
 * `for` loop; the fold records that as `aborted`, after which no item is looked at.
 */
module Watcher {

  /** A chat user's numeric id; `0` is the one id Python treats as false. */
  type UserId = int

  /** An invoice id issued by the payment service; the model only compares them. */
  type InvoiceId = int

  /** One item of the service's answer: which invoice, and its status text. */
  datatype Invoice = Invoice(invoiceId: InvoiceId, status: string)

  const Paid: string := "paid"

  /**
   * What a pass has done so far: the pending map, the invoices it has popped
   * (in order), the users it has confirmed to, and whether a send has failed.
   */
  datatype PassState = PassState(
    pending: map<InvoiceId, UserId>,
    popped: seq<InvoiceId>,
    notified: seq<UserId>,
    aborted: bool)

  /** One iteration of the `for` loop over the answer; `delivered` is whether the confirmation went out. */
  function Step(st: PassState, inv: Invoice, delivered: bool): PassState {
    if st.aborted || inv.status != Paid || inv.invoiceId !in st.pending then st
    else
      var user := st.pending[inv.invoiceId];
      var rest := st.pending - {inv.invoiceId};
      var popped := st.popped + [inv.invoiceId];
      if user == 0 then PassState(rest, popped, st.notified, false)
      else if delivered then PassState(rest, popped, st.notified + [user], false)
      else PassState(rest, popped, st.notified, true)
  }

  /** The loop over `items`; `sendOk(j)` is whether the send made for item `j` succeeds. */
  function Run(pending: map<InvoiceId, UserId>, items: seq<Invoice>, sendOk: nat -> bool): PassState
    decreases |items|
  {
    if items == [] then PassState(pending, [], [], false)
    else
      var n := |items| - 1;
      Step(Run(pending, items[..n], sendOk), items[n], sendOk(n))
  }

  /** The ids the answer reports as paid. */
  function PaidIds(items: seq<Invoice>): set<InvoiceId> {
    set j | 0 <= j < |items| && items[j].status == Paid :: items[j].invoiceId
  }

  predicate Distinct(s: seq<InvoiceId>) {
    forall i, j :: 0 <= i < j < |s| ==> s[i] != s[j]
  }

  /** The confirmations owed for the popped invoices, in order: one per invoice whose user id is not 0. */
  function Delivered(pending: map<InvoiceId, UserId>, ids: seq<InvoiceId>): (r: seq<UserId>)
    ensures |r| <= |ids|
    decreases |ids|
  {
    if ids == [] then []
    else
      var n := |ids| - 1;
      var id := ids[n];
      Delivered(pending, ids[..n]) + (if id in pending && pending[id] != 0 then [pending[id]] else [])
  }

  lemma PaidIdsLast(items: seq<Invoice>)
    requires items != []
    ensures var n := |items| - 1;
      PaidIds(items) == PaidIds(items[..n]) + (if items[n].status == Paid then {items[n].invoiceId} else {})
  {
    var n := |items| - 1;
    var pre := items[..n];
    assert forall j :: 0 <= j < n ==> pre[j] == items[j];
    forall id | id in PaidIds(items)
      ensures id in PaidIds(pre) || (items[n].status == Paid && id == items[n].invoiceId)
    {
      var j :| 0 <= j < |items| && items[j].status == Paid && items[j].invoiceId == id;
      if j < n { assert pre[j].invoiceId == id; }
    }
  }

  /** Once a send has failed, the rest of the answer is not looked at. */
  lemma {:induction false} RunAbortedIsFinal(p: map<InvoiceId, UserId>, items: seq<Invoice>, k: nat, sendOk: nat -> bool)
    requires k <= |items|
    requires Run(p, items[..k], sendOk).aborted
    ensures Run(p, items, sendOk) == Run(p, items[..k], sendOk)
    decreases |items|
  {
    if k < |items| {
      var n := |items| - 1;
      assert items[..n][..k] == items[..k];
      RunAbortedIsFinal(p, items[..n], k, sendOk);
    } else {
      assert items[..k] == items;
    }
  }

  /**
   * A pass only ever pops pending invoices reported paid, each at most once,
   * and leaves every other entry of the map as it was.
   */
  lemma {:induction false} RunPopsOnlyPaid(p: map<InvoiceId, UserId>, items: seq<Invoice>, sendOk: nat -> bool)
    ensures var st := Run(p, items, sendOk);
      && Distinct(st.popped)
      && (forall k :: 0 <= k < |st.popped| ==> st.popped[k] in p && st.popped[k] in PaidIds(items))
      && (forall id :: id in st.pending <==> id in p && id !in st.popped)
      && (forall id :: id in st.pending ==> st.pending[id] == p[id])
    ensures var st := Run(p, items, sendOk);
      forall id :: id in p && id !in PaidIds(items) ==> id in st.pending && st.pending[id] == p[id]
    decreases |items|
  {
    var st := Run(p, items, sendOk);
    if items != [] {
      var n := |items| - 1;
      var pre := Run(p, items[..n], sendOk);
      RunPopsOnlyPaid(p, items[..n], sendOk);
      PaidIdsLast(items);
      if !(pre.aborted || items[n].status != Paid || items[n].invoiceId !in pre.pending) {
        assert st.popped == pre.popped + [items[n].invoiceId];
        assert forall k :: 0 <= k < |pre.popped| ==> st.popped[k] == pre.popped[k];
      }
    }
    forall id | id in p && id !in PaidIds(items)
      ensures id in st.pending && st.pending[id] == p[id]
    {
      assert forall k :: 0 <= k < |st.popped| ==> st.popped[k] != id;
    }
  }

  /**
   * The confirmations sent are exactly those owed for the popped invoices,
   * in order, except for the one whose send failed and ended the pass.
   */
  lemma {:induction false} RunNotifiesPopped(p: map<InvoiceId, UserId>, items: seq<Invoice>, sendOk: nat -> bool)
    ensures var st := Run(p, items, sendOk);
      st.aborted ==> |st.popped| > 0 && var last := st.popped[|st.popped| - 1]; last in p && p[last] != 0
    ensures var st := Run(p, items, sendOk);
      st.notified == Delivered(p, if st.aborted then st.popped[..|st.popped| - 1] else st.popped)
    decreases |items|
  {
    RunPopsOnlyPaid(p, items, sendOk);
    var st := Run(p, items, sendOk);
    if items != [] {
      var n := |items| - 1;
      var pre := Run(p, items[..n], sendOk);
      RunNotifiesPopped(p, items[..n], sendOk);
      RunPopsOnlyPaid(p, items[..n], sendOk);
      if !(pre.aborted || items[n].status != Paid || items[n].invoiceId !in pre.pending) {
        var id := items[n].invoiceId;
        assert st.popped == pre.popped + [id];
        assert st.popped[..|st.popped| - 1] == pre.popped;
        assert pre.pending[id] == p[id];
      }
    }
  }

  /**
   * When no send fails the pass is complete: every pending invoice reported
   * paid is gone and nothing else is.
   */
  lemma {:induction false} RunCompletes(p: map<InvoiceId, UserId>, items: seq<Invoice>, sendOk: nat -> bool)
    ensures (forall j :: 0 <= j < |items| ==> sendOk(j)) ==> !Run(p, items, sendOk).aborted
    ensures !Run(p, items, sendOk).aborted ==> Run(p, items, sendOk).pending == p - PaidIds(items)
    decreases |items|
  {
    var st := Run(p, items, sendOk);
    if items != [] {
      var n := |items| - 1;
      var pre := Run(p, items[..n], sendOk);
      RunCompletes(p, items[..n], sendOk);
      RunPopsOnlyPaid(p, items[..n], sendOk);
      PaidIdsLast(items);
      if !st.aborted {
        assert !pre.aborted;
        var x := items[n];
        if x.status == Paid && x.invoiceId in pre.pending {
          assert st.pending == (p - PaidIds(items[..n])) - {x.invoiceId};
        } else if x.status == Paid {
          assert x.invoiceId !in p - PaidIds(items[..n]);
        }
        assert st.pending == p - PaidIds(items);
      }
    }
  }

  /** Every confirmation owed goes to the user id of a popped invoice, and never to id 0. */
  lemma {:induction false} DeliveredToPayers(pending: map<InvoiceId, UserId>, ids: seq<InvoiceId>)
    ensures forall k :: 0 <= k < |Delivered(pending, ids)| ==>
      Delivered(pending, ids)[k] != 0 &&
      exists m :: 0 <= m < |ids| && ids[m] in pending && pending[ids[m]] == Delivered(pending, ids)[k]
    decreases |ids|
  {
    if ids != [] {
      var n := |ids| - 1;
      var pre := ids[..n];
      DeliveredToPayers(pending, pre);
      var r := Delivered(pending, ids);
      forall k | 0 <= k < |r|
        ensures r[k] != 0 && exists m :: 0 <= m < |ids| && ids[m] in pending && pending[ids[m]] == r[k]
      {
        if k < |Delivered(pending, pre)| {
          assert r[k] == Delivered(pending, pre)[k];
          var m :| 0 <= m < |pre| && pre[m] in pending && pending[pre[m]] == r[k];
          assert ids[m] == pre[m];
        } else {
          assert ids[n] in pending && pending[ids[n]] == r[k];
        }
      }
    }
  }

  /** A pass never sends to user id 0, and each confirmation goes to the payer of an invoice it popped. */
  lemma {:induction false} RunNotifiesOnlyPayers(p: map<InvoiceId, UserId>, items: seq<Invoice>, sendOk: nat -> bool)
    ensures var st := Run(p, items, sendOk);
      forall k :: 0 <= k < |st.notified| ==>
        st.notified[k] != 0 && exists m :: 0 <= m < |st.popped| && st.popped[m] in p && p[st.popped[m]] == st.notified[k]
  {
    RunNotifiesPopped(p, items, sendOk);
    var st := Run(p, items, sendOk);
    var ids := if st.aborted then st.popped[..|st.popped| - 1] else st.popped;
    DeliveredToPayers(p, ids);
    forall k | 0 <= k < |st.notified|
      ensures st.notified[k] != 0 && exists m :: 0 <= m < |st.popped| && st.popped[m] in p && p[st.popped[m]] == st.notified[k]
    {
      assert st.notified == Delivered(p, ids);
      assert st.notified[k] == Delivered(p, ids)[k];
      var m :| 0 <= m < |ids| && ids[m] in p && p[ids[m]] == st.notified[k];
      assert st.popped[m] == ids[m];
      assert 0 <= m < |st.popped| && st.popped[m] in p && p[st.popped[m]] == st.notified[k];
    }
  }

  /** A list without repeats, drawn from a set, is no longer than the set is large. */
  lemma {:induction false} DistinctWithin(s: seq<InvoiceId>, ids: set<InvoiceId>)
    requires Distinct(s) && forall k :: 0 <= k < |s| ==> s[k] in ids
    ensures |s| <= |ids|
    decreases |s|
  {
    if s != [] {
      var n := |s| - 1;
      var x := s[n];
      var rest := ids - {x};
      assert forall k :: 0 <= k < n ==> s[..n][k] == s[k] && s[k] != x;
      DistinctWithin(s[..n], rest);
      assert ids == rest + {x};
    }
  }

  /**
   * However often the answer repeats a report, a pass pops each paid pending
   * invoice at most once and sends at most one confirmation per popped invoice:
   * there are no more confirmations than distinct paid pending invoices.
   */
  lemma {:induction false} RepeatedReportsCountOnce(p: map<InvoiceId, UserId>, items: seq<Invoice>, sendOk: nat -> bool)
    ensures var st := Run(p, items, sendOk);
      |st.notified| <= |st.popped| <= |PaidIds(items) * p.Keys|
  {
    RunPopsOnlyPaid(p, items, sendOk);
    RunNotifiesPopped(p, items, sendOk);
    var st := Run(p, items, sendOk);
    DistinctWithin(st.popped, PaidIds(items) * p.Keys);
  }

  /** An example: a paid invoice reported twice in one answer is popped once and confirmed once. */
  lemma DuplicateReportConfirmedOnce(user: UserId, id: InvoiceId, sendOk: nat -> bool)
    requires user != 0 && sendOk(0)
    ensures var st := Run(map[id := user], [Invoice(id, Paid), Invoice(id, Paid)], sendOk);
      st.notified == [user] && st.pending == map[]
  {
    var p := map[id := user];
    var items := [Invoice(id, Paid), Invoice(id, Paid)];
    assert items[..1][..0] == [];
    assert Run(p, items[..1][..0], sendOk) == PassState(p, [], [], false);
    assert p - {id} == map[];
    var first := Run(p, items[..1], sendOk);
    assert first == Step(PassState(p, [], [], false), Invoice(id, Paid), sendOk(0));
    assert first == PassState(map[], [id], [user], false);
  }
}
