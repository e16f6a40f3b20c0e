/** The `app_orders` table: its rows, the eligibility query that picks the
    orders to reconcile, and the keyed update that records an outcome. */
module Orders {
  import opened JsValues

  /** `or_pay_status` codes. */
  const Unsettled: int := 0
  const Returned: int := 2
  const Delivered: int := 3

  /** `or_status` of a dispatched order. */
  const Dispatched: int := 4

  /** `or_deliverymethod` of orders shipped with the ACS courier. */
  const AcsCourier: int := 2

  /** One row of `app_orders`, restricted to the columns the reconciliation reads
      or writes. `deliveryDate` and `consignee` hold `Null` for SQL NULL. */
  datatype OrderRow = OrderRow(
    id: int,
    postID: string,
    status: int,
    deliveryMethod: int,
    payStatus: int,
    deliveryDate: Value,
    consignee: Value)

  /** The two columns the eligibility query selects: `or_id` and `or_postID`. */
  datatype Selected = Selected(id: int, postID: string)

  /** The three columns the keyed update sets. */
  datatype Change = Change(payStatus: int, deliveryDate: Value, consignee: Value)

  predicate IsEligible(row: OrderRow)
  {
    row.status == Dispatched && row.deliveryMethod == AcsCourier && row.payStatus == Unsettled
  }

  function KeyOf(row: OrderRow): Selected
  {
    Selected(row.id, row.postID)
  }

  /** `select or_id, or_postID from app_orders where or_status = 4 and
      or_deliverymethod = 2 and or_pay_status = 0`, in table order. */
  function Eligible(rows: seq<OrderRow>): seq<Selected>
  {
    if rows == [] then []
    else
      var rest := Eligible(rows[1..]);
      if IsEligible(rows[0]) then [KeyOf(rows[0])] + rest else rest
  }

  /** The positions, from `lo` on, of the eligible rows, in increasing order:
      every eligible position appears, once. */
  ghost function EligibleIndices(rows: seq<OrderRow>, lo: nat): (idx: seq<nat>)
    requires lo <= |rows|
    ensures forall k :: 0 <= k < |idx| ==> lo <= idx[k] < |rows| && IsEligible(rows[idx[k]])
    ensures forall k, l :: 0 <= k < l < |idx| ==> idx[k] < idx[l]
    ensures forall i :: lo <= i < |rows| && IsEligible(rows[i]) ==> i in idx
    decreases |rows| - lo
  {
    if lo == |rows| then []
    else (if IsEligible(rows[lo]) then [lo] else []) + EligibleIndices(rows, lo + 1)
  }

  /** The query applied to the rows from `lo` on returns the keys of exactly those
      rows at the eligible positions, in that order. */
  lemma {:induction false} EligibleAtIndices(rows: seq<OrderRow>, lo: nat)
    requires lo <= |rows|
    ensures var sel, idx := Eligible(rows[lo..]), EligibleIndices(rows, lo);
      |sel| == |idx| && forall k :: 0 <= k < |sel| ==> sel[k] == KeyOf(rows[idx[k]])
    decreases |rows| - lo
  {
    if lo < |rows| {
      var sel, rest := Eligible(rows[lo..]), Eligible(rows[lo + 1..]);
      var idx, later := EligibleIndices(rows, lo), EligibleIndices(rows, lo + 1);
      EligibleAtIndices(rows, lo + 1);
      assert rows[lo..][1..] == rows[lo + 1..];
      assert rows[lo..][0] == rows[lo];
      if IsEligible(rows[lo]) {
        assert sel == [KeyOf(rows[lo])] + rest;
        assert idx == [lo] + later;
        forall k | 0 < k < |sel|
          ensures sel[k] == KeyOf(rows[idx[k]])
        {
          assert sel[k] == rest[k - 1] && idx[k] == later[k - 1];
        }
      } else {
        assert sel == rest && idx == later;
      }
    }
  }

  /** The query selects the key of every eligible row, once each and in table
      order, and nothing else: `sel[k]` is the key of the `k`-th eligible row. */
  lemma EligibleSelection(rows: seq<OrderRow>)
    ensures var sel, idx := Eligible(rows), EligibleIndices(rows, 0);
      && |sel| == |idx| <= |rows|
      && (forall k :: 0 <= k < |sel| ==>
            idx[k] < |rows| && IsEligible(rows[idx[k]]) && sel[k] == KeyOf(rows[idx[k]]))
      && (forall i :: 0 <= i < |rows| && IsEligible(rows[i]) ==> KeyOf(rows[i]) in sel)
  {
    var sel, idx := Eligible(rows), EligibleIndices(rows, 0);
    EligibleAtIndices(rows, 0);
    assert rows[0..] == rows;
    IndicesBound(idx, |rows|);
    forall i | 0 <= i < |rows| && IsEligible(rows[i])
      ensures KeyOf(rows[i]) in sel
    {
      var k :| 0 <= k < |idx| && idx[k] == i;
      assert sel[k] == KeyOf(rows[i]);
    }
  }

  /** A strictly increasing sequence of positions below `n` has at most `n` entries. */
  lemma {:induction false} IndicesBound(idx: seq<nat>, n: nat)
    requires forall k :: 0 <= k < |idx| ==> idx[k] < n
    requires forall k, l :: 0 <= k < l < |idx| ==> idx[k] < idx[l]
    ensures |idx| <= n
  {
    if idx != [] {
      var last := idx[|idx| - 1];
      IndicesBound(idx[..|idx| - 1], last);
    }
  }

  /** The query returns nothing exactly when no row is eligible. */
  lemma {:induction false} NoEligibleRowEmptySelection(rows: seq<OrderRow>)
    ensures Eligible(rows) == [] <==> forall i :: 0 <= i < |rows| ==> !IsEligible(rows[i])
  {
    if rows != [] {
      NoEligibleRowEmptySelection(rows[1..]);
      assert forall i :: 1 <= i < |rows| ==> rows[i] == rows[1..][i - 1];
    }
  }

  /** The value a column holds after the update sets it to `v`: knex leaves a key
      whose value is `undefined` out of the UPDATE, so the column keeps `prev`. */
  function Written(prev: Value, v: Value): Value
  {
    if v.Undefined? then prev else v
  }

  /** Every column except the three payment columns is the same in `a` and `b`. */
  predicate SameOrder(a: OrderRow, b: OrderRow)
  {
    a.id == b.id && a.postID == b.postID && a.status == b.status && a.deliveryMethod == b.deliveryMethod
  }

  /** `after` is `before` with the change `c` recorded in its payment columns. */
  predicate Carries(after: OrderRow, before: OrderRow, c: Change)
  {
    && SameOrder(after, before)
    && after.payStatus == c.payStatus
    && after.deliveryDate == Written(before.deliveryDate, c.deliveryDate)
    && after.consignee == Written(before.consignee, c.consignee)
  }

  function Overwrite(row: OrderRow, c: Change): OrderRow
  {
    row.(payStatus := c.payStatus,
         deliveryDate := Written(row.deliveryDate, c.deliveryDate),
         consignee := Written(row.consignee, c.consignee))
  }

  /** `update app_orders set or_pay_status, or_delivery_date,
      or_delivery_consignee where or_postID = key`: every row with that key gets
      the change, whatever its status, and no other row is touched. */
  function UpdateWhere(rows: seq<OrderRow>, key: string, c: Change): (r: seq<OrderRow>)
    ensures |r| == |rows|
    ensures forall i :: 0 <= i < |rows| && rows[i].postID == key ==> Carries(r[i], rows[i], c)
    ensures forall i :: 0 <= i < |rows| && rows[i].postID != key ==> r[i] == rows[i]
  {
    if rows == [] then []
    else
      var head := if rows[0].postID == key then Overwrite(rows[0], c) else rows[0];
      [head] + UpdateWhere(rows[1..], key, c)
  }

  /** Running the same keyed update twice leaves the table as running it once. */
  lemma UpdateWhereIdempotent(rows: seq<OrderRow>, key: string, c: Change)
    ensures UpdateWhere(UpdateWhere(rows, key, c), key, c) == UpdateWhere(rows, key, c)
  {
  }
}
