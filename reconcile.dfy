/** The batch run: select the eligible orders, ask the courier about each in
    turn, and feed every array reply to `checkAndupdate`. */
module Reconcile {
  import opened Wrappers
  import opened Orders
  import opened Decision

  /** What `acsRequest` resolves to. `Table_Data` when it is an array;
      `NotArray` for anything else, including the `undefined` returned after a
      request error was caught. */
  datatype Reply = NotArray | Array(items: seq<Element>)

  /** The courier, abstracted: its reply for a voucher number. A voucher the map
      does not hold is a failed request. */
  function AcsRequest(provider: map<string, Reply>, postID: string): Reply
  {
    if postID in provider then provider[postID] else NotArray
  }

  /** One pass of the loop body for one selected order. */
  function Step(rows: seq<OrderRow>, order: Selected, provider: map<string, Reply>): seq<OrderRow>
  {
    match AcsRequest(provider, order.postID)
    case NotArray => rows
    case Array(items) => ApplyResponse(rows, items)
  }

  /** The table after the loop has run over `orders`, one after another. */
  function Process(rows: seq<OrderRow>, orders: seq<Selected>, provider: map<string, Reply>): seq<OrderRow>
    decreases |orders|
  {
    if orders == [] then rows
    else Step(Process(rows, orders[..|orders| - 1], provider), orders[|orders| - 1], provider)
  }

  /** The keyed update an order's reply issues: the voucher it names and the
      change it records. */
  datatype Write = Write(key: string, change: Change)

  function WriteOf(order: Selected, provider: map<string, Reply>): Option<Write>
  {
    match AcsRequest(provider, order.postID)
    case NotArray => None
    case Array(items) =>
      match FirstRecord(items)
      case Failure(_) => None
      case Success(rec) =>
        match Decide(rec)
        case None => None
        case Some(c) => Some(Write(rec.voucherNo, c))
  }

  /** A pass of the loop issues exactly the write `WriteOf` names, or nothing. */
  lemma StepIsWrite(rows: seq<OrderRow>, order: Selected, provider: map<string, Reply>)
    ensures Step(rows, order, provider) ==
              match WriteOf(order, provider)
              case None => rows
              case Some(w) => UpdateWhere(rows, w.key, w.change)
  {
  }

  /** The order's reply leaves the table alone: the request failed or gave a
      non-array, or the array's first element is missing or null, or neither of
      its flags is 1. */
  predicate Silent(order: Selected, provider: map<string, Reply>)
  {
    WriteOf(order, provider).None?
  }

  class OrderTable {
    var rows: seq<OrderRow>

    constructor (initial: seq<OrderRow>)
      ensures rows == initial
    {
      rows := initial;
    }

    /** `checkAndupdate(acsResponse)`. */
    method CheckAndUpdate(response: seq<Element>)
      modifies this
      ensures rows == ApplyResponse(old(rows), response)
    {
      var first := FirstRecord(response);
      if first.Failure? {
        // the TypeError is caught and logged; nothing is written
        return;
      }
      var rec := first.value;
      var change := Decide(rec);
      if change.Some? {
        rows := UpdateWhere(rows, rec.voucherNo, change.value);
      }
    }

    /** The top-level run: every eligible order is processed, in order, whatever
      happened to the ones before it. */
    method Run(provider: map<string, Reply>)
      modifies this
      ensures rows == Process(old(rows), Eligible(old(rows)), provider)
    {
      var selected := Eligible(rows);
      ghost var start := rows;
      var i := 0;
      while i < |selected|
        invariant 0 <= i <= |selected|
        invariant rows == Process(start, selected[..i], provider)
      {
        ghost var before := rows;
        var response := AcsRequest(provider, selected[i].postID);
        if response.Array? {
          CheckAndUpdate(response.items);
        }
        assert rows == Step(before, selected[i], provider);
        ProcessOneMore(start, selected, i, provider);
        i := i + 1;
      }
      assert selected[..i] == selected;
    }
  }

  /** The loop after `i + 1` orders is one more pass after `i` orders. */
  lemma ProcessOneMore(rows: seq<OrderRow>, orders: seq<Selected>, i: nat, provider: map<string, Reply>)
    requires i < |orders|
    ensures Process(rows, orders[..i + 1], provider)
         == Step(Process(rows, orders[..i], provider), orders[i], provider)
  {
    assert orders[..i + 1][..i] == orders[..i];
  }

  /** A silent order's pass changes nothing. */
  lemma SilentStepIsIdentity(rows: seq<OrderRow>, order: Selected, provider: map<string, Reply>)
    requires Silent(order, provider)
    ensures Step(rows, order, provider) == rows
  {
  }

  /** Fail-soft isolation: an order whose request fails, whose reply is not an
      array, or whose reply decides nothing has the same effect on the run as
      leaving it out of the selection; every other order is still processed. */
  lemma {:induction false} SilentOrderIsSkipped(
    rows: seq<OrderRow>, orders: seq<Selected>, k: nat, provider: map<string, Reply>)
    requires k < |orders|
    requires Silent(orders[k], provider)
    ensures Process(rows, orders, provider) == Process(rows, orders[..k] + orders[k + 1..], provider)
  {
    var n := |orders| - 1;
    var init := orders[..n];
    if k == n {
      assert orders[..k] + orders[k + 1..] == init;
      SilentStepIsIdentity(Process(rows, init, provider), orders[k], provider);
    } else {
      var without := orders[..k] + orders[k + 1..];
      assert init[k] == orders[k];
      SilentOrderIsSkipped(rows, init, k, provider);
      assert init[..k] + init[k + 1..] == without[..|without| - 1];
      assert without[|without| - 1] == orders[n];
    }
  }

  /** An order whose reply writes `w` has its effect at the end of the run, in
      every row keyed by `w.key`, unless a later order's reply writes that same
      key: failures and writes for other vouchers do not undo it. */
  lemma {:induction false} WriteSurvives(
    rows: seq<OrderRow>, orders: seq<Selected>, k: nat, w: Write, provider: map<string, Reply>)
    requires k < |orders| && WriteOf(orders[k], provider) == Some(w)
    requires forall j :: k < j < |orders| ==>
               WriteOf(orders[j], provider).None? || WriteOf(orders[j], provider).value.key != w.key
    ensures var r := Process(rows, orders, provider);
      |r| == |rows| &&
      forall i :: 0 <= i < |rows| && rows[i].postID == w.key ==>
        && r[i].payStatus == w.change.payStatus
        && (!w.change.deliveryDate.Undefined? ==> r[i].deliveryDate == w.change.deliveryDate)
        && (!w.change.consignee.Undefined? ==> r[i].consignee == w.change.consignee)
    decreases |orders|
  {
    var n := |orders| - 1;
    var init := orders[..n];
    var mid := Process(rows, init, provider);
    ProcessFrame(rows, init, provider);
    if k < n {
      WriteSurvives(rows, init, k, w, provider);
    }
  }

  /** Over a whole run only the three payment columns change, and a row that
      changes ends with pay status 2 or 3: a run never makes a row eligible, and
      every row it writes drops out of the next run's selection. */
  lemma {:induction false} ProcessFrame(rows: seq<OrderRow>, orders: seq<Selected>, provider: map<string, Reply>)
    ensures var r := Process(rows, orders, provider);
      && |r| == |rows|
      && (forall i :: 0 <= i < |rows| ==> SameOrder(r[i], rows[i]))
      && (forall i :: 0 <= i < |rows| && r[i] != rows[i] ==> r[i].payStatus in {Returned, Delivered})
      && (forall i :: 0 <= i < |rows| && IsEligible(r[i]) ==> IsEligible(rows[i]))
    decreases |orders|
  {
    if orders != [] {
      var init := orders[..|orders| - 1];
      var order := orders[|orders| - 1];
      ProcessFrame(rows, init, provider);
      var mid := Process(rows, init, provider);
      match AcsRequest(provider, order.postID)
      case NotArray =>
      case Array(items) => ApplyResponseFrame(mid, items);
    }
  }

  /** The loop reads the courier's replies for the vouchers of `orders` and no
      others: two couriers that answer alike for them give the same result. */
  lemma {:induction false} ProcessReadsOnlyItsOrders(
    rows: seq<OrderRow>, orders: seq<Selected>, p: map<string, Reply>, q: map<string, Reply>)
    requires forall o :: o in orders ==> AcsRequest(p, o.postID) == AcsRequest(q, o.postID)
    ensures Process(rows, orders, p) == Process(rows, orders, q)
    decreases |orders|
  {
    if orders != [] {
      var init := orders[..|orders| - 1];
      assert forall o :: o in init ==> o in orders;
      ProcessReadsOnlyItsOrders(rows, init, p, q);
    }
  }

  /** Only eligible orders are sent to the courier: two couriers that answer
      alike for the vouchers of the eligible rows give the same run. */
  lemma OnlySelectedAreAsked(rows: seq<OrderRow>, p: map<string, Reply>, q: map<string, Reply>)
    requires forall i :: 0 <= i < |rows| && IsEligible(rows[i]) ==>
               AcsRequest(p, rows[i].postID) == AcsRequest(q, rows[i].postID)
    ensures Process(rows, Eligible(rows), p) == Process(rows, Eligible(rows), q)
  {
    var sel := Eligible(rows);
    EligibleSelection(rows);
    forall o | o in sel
      ensures AcsRequest(p, o.postID) == AcsRequest(q, o.postID)
    {
      var k :| 0 <= k < |sel| && sel[k] == o;
      var i := EligibleIndices(rows, 0)[k];
      assert IsEligible(rows[i]) && o == KeyOf(rows[i]);
    }
    ProcessReadsOnlyItsOrders(rows, sel, p, q);
  }

  /** A run over a table with no eligible order asks nothing and writes nothing. */
  lemma NothingEligibleNothingChanges(rows: seq<OrderRow>, provider: map<string, Reply>)
    requires forall i :: 0 <= i < |rows| ==> !IsEligible(rows[i])
    ensures Eligible(rows) == []
    ensures Process(rows, Eligible(rows), provider) == rows
  {
    NoEligibleRowEmptySelection(rows);
  }
}
