# ACS delivery reconciliation, modelled in Dafny

This project models the reconciliation job in `index.js`. The job selects from `app_orders` the orders shipped
with the ACS courier that are dispatched and still unsettled. It asks the ACS tracking summary about each one,
one after another. It then records what the first record of the reply says: delivered (pay status 3, with
delivery date and consignee) or returned (pay status 2, date and consignee NULL). The record's own `voucher_no`
picks the rows to update.

Files and modules:

- `wrappers.dfy` (`Wrappers`): `Option` and `Result`.
- `values.dfy` (`JsValues`): the JavaScript values a tracking record carries, and `=== 1` as `IsOne`.
- `orders.dfy` (`Orders`): an `app_orders` row, the eligibility query (`Eligible`, with `EligibleSelection` saying what it selects) and the keyed update
  (`UpdateWhere`).
- `decision.dfy` (`Decision`): `checkAndupdate` as functions. `FirstRecord` reads `acsResponse[0]` and fails
  with a TypeError on an empty array or a null element. `Decide` is the flag chain. `ApplyResponse` is the
  effect on the table. Lemmas give the outcomes.
- `reconcile.dfy` (`Reconcile`): the courier as a map from voucher number to reply and the loop (`Process`).
  It also holds the class `OrderTable`, whose field `rows` is the table. Its methods `CheckAndUpdate` and `Run`
  change that field in place and are proved equal to `ApplyResponse` and `Process`. Lemmas cover isolation,
  framing and which orders reach the courier.

## Model

| member | source | states |
|---|---|---|
| `Orders.EligibleSelection` | index.js:16-21 | the `k`-th selected pair is the `(or_id, or_postID)` of the `k`-th row with status 4, delivery method 2 and pay status 0 (positions from `EligibleIndices`: strictly increasing, every eligible row listed once); so every eligible row is selected once, and nothing else is |
| `Orders.NoEligibleRowEmptySelection` | index.js:16-21 | the query returns nothing exactly when no row is eligible |
| `Orders.UpdateWhere` | index.js:69-73 | every row whose `or_postID` equals the key gets the three payment columns set (an `undefined` value leaves its column as it was), whatever its status; its other columns are kept; every other row is unchanged; the row count is kept |
| `Orders.UpdateWhereIdempotent` | index.js:69-73 | running the same keyed update twice gives the table that one run gives |
| `Decision.Decide` | index.js:56-68 | a write is decided exactly when a flag is strictly 1; delivered gives status 3 with the record's date and consignee, whatever the returned flag; otherwise returned gives status 2 with NULL date and consignee; a decided status is never 0 |
| `Decision.DeliveredWins` | index.js:60-73 | a first record with `delivery_flag === 1` sets status 3 and copies its date and consignee into every row keyed by its `voucher_no`, whatever `returned_flag` says; other rows and columns are unchanged |
| `Decision.ReturnedClearsDelivery` | index.js:56-73 | a first record that is returned and not delivered sets status 2 and NULL date and consignee in every row keyed by its voucher; other rows and columns are unchanged |
| `Decision.WritesOnlyOnAFlag` | index.js:59-77 | if the table changes, the reply had a readable first element with one flag strictly 1; an empty reply, a null first element or a record with neither flag writes nothing |
| `Decision.LooseFlagsDoNotCount` | index.js:61-66 | a reply whose first record has flags equal to the string "1" or to `true` (not `=== 1`) writes nothing, whatever follows it |
| `Decision.OnlyFirstElementCounts` | index.js:60 | two replies with the same first element have the same effect |
| `Decision.ApplyResponseIdempotent` | index.js:55-78 | applying the same reply twice leaves the table as applying it once |
| `Decision.ApplyResponseFrame` | index.js:68-73 | a reply changes only the three payment columns; a row it changes ends with status 2 or 3 and is no longer eligible |
| `Reconcile.OrderTable.CheckAndUpdate` | index.js:55-78 | the table after the call is `ApplyResponse` of the table before |
| `Reconcile.OrderTable.Run` | index.js:15-28 | the loop processes every selected order in turn; the table afterwards is `Process` over the whole selection, taken from the table as it was at the start |
| `Reconcile.StepIsWrite` | index.js:23-25 | one pass of the loop for an order is the keyed update its reply names (the record's `voucher_no` and the decided change), or no change when the request fails, the reply is not an array, or nothing is decided |
| `Reconcile.SilentStepIsIdentity` | index.js:22-26 | an order whose request fails, whose reply is not an array, or whose reply decides nothing leaves the table unchanged |
| `Reconcile.SilentOrderIsSkipped` | index.js:22-26 | such an order has the same effect on the run as removing it from the selection; the remaining orders are processed as before |
| `Reconcile.WriteSurvives` | index.js:22-26 | an order's write still holds at the end of the run in every row keyed by its voucher, unless a later reply writes that same voucher |
| `Reconcile.ProcessFrame` | index.js:22-26 | over a whole run only the three payment columns change; a changed row ends with status 2 or 3; no row becomes eligible |
| `Reconcile.ProcessReadsOnlyItsOrders` | index.js:22-25 | the loop over a list of orders depends on the courier's replies for those orders' vouchers only |
| `Reconcile.OnlySelectedAreAsked` | index.js:16-25 | a run depends on the courier's replies for the vouchers of the eligible rows only |
| `Reconcile.NothingEligibleNothingChanges` | index.js:16-26 | with no eligible row the selection is empty, so nothing is asked, and the run writes nothing |

## Left out

- Configuration from `./config/.env`, the knex connection and `knex.destroy()` (index.js:1-13, 27) are process plumbing.
- The axios request to the ACS API (index.js:32-48) is not modelled: its body, credentials and `AcsApiKey` header, and the path `response.data.ACSOutputResponce.ACSTableOutput.Table_Data`. The courier is a map from voucher number to reply. A missing voucher is a failed request, and any non-array result is `NotArray`.
- The courier gives the same reply to the same voucher throughout one run; a courier whose answer changes between two requests is not modelled.
- `console.error` logging (index.js:51, 76) is not modelled; a caught error is "no change, carry on".
- async/await scheduling is not modelled; the loop awaits each order before the next, so it is sequential.
- `voucher_no` and `or_postID` are modelled as strings compared exactly. A missing or non-string `voucher_no` is not modelled, nor is a NULL or non-string `or_postID` (index.js:42 would send `Voucher_No: null`, and no string `voucher_no` matches such a row at index.js:69), and neither is MySQL's collation or type coercion in the WHERE clause.
- A database error during the UPDATE is not modelled. `checkAndupdate` catches it (index.js:75-77) and the row is not written; the model always completes the update.
- The SQL query has no ORDER BY, so MySQL may return the eligible rows in any order; the model fixes table order.
- Orders.UpdateWhere: follows knex in leaving a column out of the UPDATE when the copied value is `undefined`. knex itself is not part of this model.
- The code does not promise that a whole run is idempotent, and the model does not claim it. Two orders whose replies name the same voucher with different outcomes can settle differently on a second run; `Decision.ApplyResponseIdempotent` states idempotence per reply.
- A record with both flags equal to 1 counts as delivered, because `delivery_flag` is tested first (index.js:61).
- A delivery always gives pay status 3; no payment method is read (index.js:61-64).
- No cash-on-delivery settlement feed appears in `index.js`, so none is modelled.
