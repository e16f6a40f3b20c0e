/** `checkAndupdate`: the decision taken from the first record of a tracking
    reply, and its effect on the `app_orders` table. */
module Decision {
  import opened Wrappers
  import opened JsValues
  import opened Orders

  /** The fields of one record of the tracking summary that the decision reads.
      An element that is a number, string or boolean reads every field as
      `undefined`, which is a record whose flags are `Undefined`. */
  datatype TrackingRecord = TrackingRecord(
    deliveryFlag: Value,
    returnedFlag: Value,
    deliveryDate: Value,
    consignee: Value,
    voucherNo: string)

  /** An element of the reply array: `null`/`undefined`, whose fields cannot be
      read, or a record. */
  datatype Element = Nullish | Entry(rec: TrackingRecord)

  /** The TypeError raised by reading a field of `undefined` or `null`;
      `checkAndupdate` catches it and logs it. */
  datatype Fault = TypeError

  /** `acsResponse[0]` followed by a read of its fields: an empty array yields
      `undefined`, and reading a field of it throws. */
  function FirstRecord(response: seq<Element>): Result<TrackingRecord, Fault>
  {
    if |response| == 0 || response[0].Nullish? then Failure(TypeError)
    else Success(response[0].rec)
  }

  /** The if / else-if chain on the two flags. `None` is "pay_status stayed 0",
      for which `checkAndupdate` issues no update. */
  function Decide(rec: TrackingRecord): (r: Option<Change>)
    ensures r.Some? <==> IsOne(rec.deliveryFlag) || IsOne(rec.returnedFlag)
    ensures r.Some? ==> r.value.payStatus != Unsettled
    ensures IsOne(rec.deliveryFlag) ==>
              r == Some(Change(Delivered, rec.deliveryDate, rec.consignee))
    ensures !IsOne(rec.deliveryFlag) && IsOne(rec.returnedFlag) ==>
              r == Some(Change(Returned, Null, Null))
  {
    if IsOne(rec.deliveryFlag) then Some(Change(Delivered, rec.deliveryDate, rec.consignee))
    else if IsOne(rec.returnedFlag) then Some(Change(Returned, Null, Null))
    else None
  }

  /** The table after `checkAndupdate(response)`: a caught TypeError and a
      decision to do nothing both leave it as it was; otherwise the rows keyed by
      the record's own `voucher_no` get the change. */
  function ApplyResponse(rows: seq<OrderRow>, response: seq<Element>): seq<OrderRow>
  {
    match FirstRecord(response)
    case Failure(_) => rows
    case Success(rec) =>
      match Decide(rec)
      case None => rows
      case Some(c) => UpdateWhere(rows, rec.voucherNo, c)
  }

  /** A delivered first record sets pay status 3 and copies the delivery date
      and consignee into every row keyed by its voucher, whatever its returned
      flag says; no other row changes. */
  lemma DeliveredWins(rows: seq<OrderRow>, response: seq<Element>)
    requires |response| > 0 && response[0].Entry?
    requires IsOne(response[0].rec.deliveryFlag)
    ensures var r, rec := ApplyResponse(rows, response), response[0].rec;
      && |r| == |rows|
      && (forall i :: 0 <= i < |rows| && rows[i].postID == rec.voucherNo ==>
            && SameOrder(r[i], rows[i])
            && r[i].payStatus == Delivered
            && r[i].deliveryDate == Written(rows[i].deliveryDate, rec.deliveryDate)
            && r[i].consignee == Written(rows[i].consignee, rec.consignee))
      && (forall i :: 0 <= i < |rows| && rows[i].postID != rec.voucherNo ==> r[i] == rows[i])
  {
  }

  /** A returned first record that is not also delivered sets pay status 2 and
      writes NULL for the delivery date and consignee of every row keyed by its
      voucher; no other row changes. */
  lemma ReturnedClearsDelivery(rows: seq<OrderRow>, response: seq<Element>)
    requires |response| > 0 && response[0].Entry?
    requires !IsOne(response[0].rec.deliveryFlag) && IsOne(response[0].rec.returnedFlag)
    ensures var r, rec := ApplyResponse(rows, response), response[0].rec;
      && |r| == |rows|
      && (forall i :: 0 <= i < |rows| && rows[i].postID == rec.voucherNo ==>
            && SameOrder(r[i], rows[i])
            && r[i].payStatus == Returned
            && r[i].deliveryDate == Null
            && r[i].consignee == Null)
      && (forall i :: 0 <= i < |rows| && rows[i].postID != rec.voucherNo ==> r[i] == rows[i])
  {
  }

  /** The table changes only if the reply has a readable first record with one of
      its two flags strictly equal to 1: an empty reply, a null first element, or
      a first record with neither flag issues no update. */
  lemma WritesOnlyOnAFlag(rows: seq<OrderRow>, response: seq<Element>)
    ensures ApplyResponse(rows, response) != rows ==>
              && |response| > 0 && response[0].Entry?
              && (IsOne(response[0].rec.deliveryFlag) || IsOne(response[0].rec.returnedFlag))
  {
  }

  /** A flag equal to the string "1" or to `true` is not `=== 1`: a reply whose
      first record has such flags issues no update. */
  lemma LooseFlagsDoNotCount(rows: seq<OrderRow>, response: seq<Element>)
    requires |response| > 0 && response[0].Entry?
    requires response[0].rec.deliveryFlag in {Str("1"), Bool(true)}
    requires response[0].rec.returnedFlag in {Str("1"), Bool(true)}
    ensures ApplyResponse(rows, response) == rows
  {
  }

  /** Only `acsResponse[0]` is consulted: replies that agree on their first
      element have the same effect. */
  lemma OnlyFirstElementCounts(rows: seq<OrderRow>, a: seq<Element>, b: seq<Element>)
    requires |a| > 0 && |b| > 0 && a[0] == b[0]
    ensures ApplyResponse(rows, a) == ApplyResponse(rows, b)
  {
  }

  /** Applying the same reply twice leaves the table as applying it once. */
  lemma ApplyResponseIdempotent(rows: seq<OrderRow>, response: seq<Element>)
    ensures ApplyResponse(ApplyResponse(rows, response), response) == ApplyResponse(rows, response)
  {
  }

  /** Only the three payment columns change, and a row that changes ends with
      pay status 2 or 3, so it is no longer eligible for reconciliation. */
  lemma ApplyResponseFrame(rows: seq<OrderRow>, response: seq<Element>)
    ensures var r := ApplyResponse(rows, response);
      && |r| == |rows|
      && (forall i :: 0 <= i < |rows| ==> SameOrder(r[i], rows[i]))
      && (forall i :: 0 <= i < |rows| && r[i] != rows[i] ==>
            r[i].payStatus in {Returned, Delivered} && !IsEligible(r[i]))
  {
  }
}
