/**
 * `Order.get_wait_time`: per order, the whole days from purchase to delivery,
 * the whole days from purchase to the estimated delivery date, and the delay
 * beyond the estimate clamped at zero.
 */
module WaitTime {
  import opened Wrappers
  import opened Records
  import opened TableOps

  const SecondsPerDay: int := 86400

  /** The status value the default filter keeps. */
  const Delivered: string := "delivered"

  /** A row of the wait-time table. */
  datatype WaitRow = WaitRow(
    orderId: string,
    waitTime: Option<int>,
    expectedWaitTime: Option<int>,
    delayVsExpected: int,
    orderStatus: Option<string>)

  /** `d` is the whole number of days in `secs` seconds, rounded down. */
  ghost predicate FloorDays(d: int, secs: int) {
    d * SecondsPerDay <= secs < (d + 1) * SecondsPerDay
  }

  /** `(to - from).dt.days`: missing when either timestamp is missing. */
  function Days(from: Option<int>, to: Option<int>): (d: Option<int>)
    ensures d.Some? <==> from.Some? && to.Some?
    ensures d.Some? ==> FloorDays(d.value, to.value - from.value)
  {
    if from.Some? && to.Some? then Some((to.value - from.value) / SecondsPerDay) else None
  }

  /** The `np.where(wait - expected > 0, wait - expected, 0)` clamp. A missing
      operand makes the comparison false, so the delay is then 0, not missing. */
  function Delay(wait: Option<int>, expected: Option<int>): (r: int)
    ensures r >= 0
    ensures wait.Some? && expected.Some? ==>
              r >= wait.value - expected.value && (r == 0 || r == wait.value - expected.value)
    ensures wait.None? || expected.None? ==> r == 0
  {
    if wait.Some? && expected.Some? && wait.value - expected.value > 0
    then wait.value - expected.value
    else 0
  }

  /** The wait-time row derived from one order row. */
  function WaitRowOf(o: OrderRow): (w: WaitRow)
    ensures w.orderId == o.orderId && w.orderStatus == o.orderStatus
    ensures w.waitTime.Some? <==> o.purchaseTimestamp.Some? && o.deliveredCustomerDate.Some?
    ensures w.waitTime.Some? ==>
              FloorDays(w.waitTime.value, o.deliveredCustomerDate.value - o.purchaseTimestamp.value)
    ensures w.expectedWaitTime.Some? <==> o.purchaseTimestamp.Some? && o.estimatedDeliveryDate.Some?
    ensures w.expectedWaitTime.Some? ==>
              FloorDays(w.expectedWaitTime.value, o.estimatedDeliveryDate.value - o.purchaseTimestamp.value)
    ensures w.delayVsExpected >= 0
    ensures w.waitTime.Some? && w.expectedWaitTime.Some? ==>
              w.delayVsExpected >= w.waitTime.value - w.expectedWaitTime.value
              && (w.delayVsExpected == 0 || w.delayVsExpected == w.waitTime.value - w.expectedWaitTime.value)
    ensures w.waitTime.None? || w.expectedWaitTime.None? ==> w.delayVsExpected == 0
  {
    var wait := Days(o.purchaseTimestamp, o.deliveredCustomerDate);
    var expected := Days(o.purchaseTimestamp, o.estimatedDeliveryDate);
    WaitRow(o.orderId, wait, expected, Delay(wait, expected), o.orderStatus)
  }

  /** The wait-time rows of `rows`, one per row, in order. */
  function WaitRows(rows: seq<OrderRow>): (t: seq<WaitRow>)
    ensures |t| == |rows|
    ensures forall i :: 0 <= i < |rows| ==> t[i] == WaitRowOf(rows[i])
    ensures forall o :: o in rows ==> WaitRowOf(o) in t
    ensures forall w :: w in t ==> exists o :: o in rows && w == WaitRowOf(o)
  {
    var t := seq(|rows|, i requires 0 <= i < |rows| => WaitRowOf(rows[i]));
    assert forall o :: o in rows ==> WaitRowOf(o) in t by {
      forall o | o in rows ensures WaitRowOf(o) in t {
        var i :| 0 <= i < |rows| && rows[i] == o;
        assert t[i] == WaitRowOf(o);
      }
    }
    t
  }

  /** `get_wait_time(is_delivered)`: with the filter on, exactly the delivered
      orders; with it off, one row per order row, in order. */
  function WaitTimes(orders: seq<OrderRow>, isDelivered: bool): (t: seq<WaitRow>)
    ensures isDelivered ==> forall w :: w in t ==>
              exists o :: o in orders && o.orderStatus == Some(Delivered) && w == WaitRowOf(o)
    ensures isDelivered ==> forall o :: o in orders && o.orderStatus == Some(Delivered) ==> WaitRowOf(o) in t
    ensures isDelivered ==> |t| == multiset(KeyColumn(orders, OrderStatus))[Some(Delivered)]
    ensures !isDelivered ==> |t| == |orders|
    ensures !isDelivered ==> forall i :: 0 <= i < |t| ==> t[i] == WaitRowOf(orders[i])
  {
    if isDelivered then
      MatchesCount(orders, OrderStatus, Some(Delivered));
      WaitRows(Matches(orders, OrderStatus, Some(Delivered)))
    else
      WaitRows(orders)
  }

  /** Under the default filter every wait-time row is a delivered order. */
  lemma DeliveredOnly(orders: seq<OrderRow>)
    ensures forall w :: w in WaitTimes(orders, true) ==> w.orderStatus == Some(Delivered)
  {
  }

  /** Day counts respect the order of timestamps: an order delivered no later
      than its estimate has no delay, and one delivered a full day or more after
      it has a positive delay. */
  lemma DelayReflectsLateness(o: OrderRow)
    requires o.purchaseTimestamp.Some? && o.deliveredCustomerDate.Some? && o.estimatedDeliveryDate.Some?
    ensures o.deliveredCustomerDate.value <= o.estimatedDeliveryDate.value ==> WaitRowOf(o).delayVsExpected == 0
    ensures o.deliveredCustomerDate.value >= o.estimatedDeliveryDate.value + SecondsPerDay ==>
              WaitRowOf(o).delayVsExpected > 0
  {
  }

  /** The wait-time rows of a concatenation are the rows of each part, in order. */
  lemma WaitRowsAppend(a: seq<OrderRow>, b: seq<OrderRow>)
    ensures WaitRows(a + b) == WaitRows(a) + WaitRows(b)
  {
  }

  /** Both filter settings keep the input order: the table of a concatenation
      of order tables is the concatenation of their tables. */
  lemma WaitTimesAppend(a: seq<OrderRow>, b: seq<OrderRow>, isDelivered: bool)
    ensures WaitTimes(a + b, isDelivered) == WaitTimes(a, isDelivered) + WaitTimes(b, isDelivered)
  {
    if isDelivered {
      MatchesAppend(a, b, OrderStatus, Some(Delivered));
      WaitRowsAppend(Matches(a, OrderStatus, Some(Delivered)), Matches(b, OrderStatus, Some(Delivered)));
    } else {
      WaitRowsAppend(a, b);
    }
  }

  /** A single order yields its own row, unless the filter is on and the order
      is not delivered; with `WaitTimesAppend` this fixes the whole table. */
  lemma WaitTimesSingle(o: OrderRow, isDelivered: bool)
    ensures WaitTimes([o], isDelivered)
            == if !isDelivered || o.orderStatus == Some(Delivered) then [WaitRowOf(o)] else []
  {
    assert [o][1..] == [];
  }
}
