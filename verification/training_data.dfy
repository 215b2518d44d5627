/**
 * `Order.get_training_data`: the wait-time table left-joined on `order_id`
 * with the review, item-count, seller-count, price/freight and (optionally)
 * distance tables, followed by `dropna()`.
 */
module TrainingData {
  import opened Wrappers
  import opened Records
  import opened TableOps
  import opened WaitTime
  import opened ReviewScore
  import opened ItemAggregates
  import opened Distance

  /** A row of the merged frame. Columns that came from a right-hand table are
      missing when the join found no partner. `distanceSellerCustomer` is a
      column only when the distance table was requested. */
  datatype TrainingRow = TrainingRow(
    orderId: string,
    waitTime: Option<int>,
    expectedWaitTime: Option<int>,
    delayVsExpected: int,
    orderStatus: Option<string>,
    dimIsFiveStar: Option<int>,
    dimIsOneStar: Option<int>,
    reviewScore: Option<int>,
    numberOfItems: Option<int>,
    numberOfSellers: Option<int>,
    price: Option<int>,
    freightValue: Option<int>,
    distanceSellerCustomer: Option<int>)

  /** No column of the row is missing (what `dropna()` keeps). */
  predicate Complete(t: TrainingRow, withDistance: bool) {
    && t.waitTime.Some? && t.expectedWaitTime.Some? && t.orderStatus.Some?
    && t.dimIsFiveStar.Some? && t.dimIsOneStar.Some? && t.reviewScore.Some?
    && t.numberOfItems.Some? && t.numberOfSellers.Some?
    && t.price.Some? && t.freightValue.Some?
    && (withDistance ==> t.distanceSellerCustomer.Some?)
  }

  function RowKey(t: TrainingRow): string { t.orderId }

  /** The columns that come from the wait-time table. */
  function WaitColumns(t: TrainingRow): WaitRow {
    WaitRow(t.orderId, t.waitTime, t.expectedWaitTime, t.delayVsExpected, t.orderStatus)
  }

  /** The review columns, with the key. */
  function ReviewColumns(t: TrainingRow): (string, Option<int>, Option<int>, Option<int>) {
    (t.orderId, t.dimIsFiveStar, t.dimIsOneStar, t.reviewScore)
  }

  /** The item-count column, with the key. */
  function ItemColumns(t: TrainingRow): (string, Option<int>) { (t.orderId, t.numberOfItems) }

  /** Every column but the price and freight sums. */
  function Unpriced(t: TrainingRow): TrainingRow { t.(price := None, freightValue := None) }

  /** Every column but the distance. */
  function Undistanced(t: TrainingRow): TrainingRow { t.(distanceSellerCustomer := None) }

  /** None of the columns a right-hand table supplies is filled yet. */
  ghost predicate NoFeatures(t: TrainingRow) {
    && t.dimIsFiveStar.None? && t.dimIsOneStar.None? && t.reviewScore.None?
    && t.numberOfItems.None? && t.numberOfSellers.None?
    && t.price.None? && t.freightValue.None? && t.distanceSellerCustomer.None?
  }

  function FromWait(w: WaitRow): TrainingRow {
    TrainingRow(w.orderId, w.waitTime, w.expectedWaitTime, w.delayVsExpected, w.orderStatus,
                None, None, None, None, None, None, None, None)
  }

  function AddReview(t: TrainingRow, r: Option<ReviewFlags>): TrainingRow {
    match r
    case Some(f) => t.(dimIsFiveStar := Some(f.dimIsFiveStar), dimIsOneStar := Some(f.dimIsOneStar),
                       reviewScore := f.reviewScore)
    case None => t.(dimIsFiveStar := None, dimIsOneStar := None, reviewScore := None)
  }

  function AddItemCount(t: TrainingRow, c: Option<ItemCount>): TrainingRow {
    t.(numberOfItems := if c.Some? then Some(c.value.numberOfItems) else None)
  }

  function AddSellerCount(t: TrainingRow, c: Option<SellerCount>): TrainingRow {
    t.(numberOfSellers := if c.Some? then Some(c.value.numberOfSellers) else None)
  }

  function AddPriceFreight(t: TrainingRow, p: Option<PriceFreight>): TrainingRow {
    match p
    case Some(v) => t.(price := Some(v.price), freightValue := Some(v.freightValue))
    case None => t.(price := None, freightValue := None)
  }

  function DistanceKey(d: DistanceRow): string { d.orderId }

  function AddDistance(t: TrainingRow, d: Option<DistanceRow>): TrainingRow {
    t.(distanceSellerCustomer := if d.Some? then Some(d.value.distanceSellerCustomer) else None)
  }

  /** Training rows carrying the wait-time rows `ws`, one each, in order. */
  function FromWaits(ws: seq<WaitRow>): (t: seq<TrainingRow>)
    ensures |t| == |ws|
    ensures forall i :: 0 <= i < |t| ==> WaitColumns(t[i]) == ws[i] && NoFeatures(t[i])
    ensures Column(t, WaitColumns) == set w | w in ws
  {
    var t := seq(|ws|, i requires 0 <= i < |ws| => FromWait(ws[i]));
    assert forall w :: w in ws ==> w in Column(t, WaitColumns) by {
      forall w | w in ws ensures w in Column(t, WaitColumns) {
        var i :| 0 <= i < |ws| && ws[i] == w;
        assert WaitColumns(t[i]) == w;
      }
    }
    t
  }

  /** The wait-time table as the anchor of the merge: row `i` carries wait-time
      row `i` and nothing else yet. */
  function Anchor(orders: seq<OrderRow>, isDelivered: bool): (t: seq<TrainingRow>)
    ensures |t| == |WaitTimes(orders, isDelivered)|
    ensures forall i :: 0 <= i < |t| ==>
              WaitColumns(t[i]) == WaitTimes(orders, isDelivered)[i] && NoFeatures(t[i])
    ensures Column(t, WaitColumns) == set w | w in WaitTimes(orders, isDelivered)
  {
    FromWaits(WaitTimes(orders, isDelivered))
  }

  /** `merge(get_review_score(), on='order_id', how='left')`. */
  function JoinReviews(rows: seq<TrainingRow>, flags: seq<ReviewFlags>): (out: seq<TrainingRow>)
    ensures |out| >= |rows|
    ensures Column(out, WaitColumns) == Column(rows, WaitColumns)
    ensures forall o :: o in out ==>
              (o.dimIsFiveStar.None? && o.dimIsOneStar.None? && o.reviewScore.None?)
              || o.orderId in Column(flags, FlagsKey)
    ensures UniqueKeys(flags, FlagsKey) ==>
              |out| == |rows|
              && forall i :: 0 <= i < |rows| ==>
                   out[i] == AddReview(rows[i], Lookup(flags, FlagsKey, RowKey(rows[i])))
  {
    var out := LeftJoin(rows, flags, RowKey, FlagsKey, AddReview);
    LeftJoinKeeps(rows, flags, RowKey, FlagsKey, AddReview, WaitColumns, WaitColumns);
    assert forall o :: o in out ==>
             (o.dimIsFiveStar.None? && o.dimIsOneStar.None? && o.reviewScore.None?)
             || o.orderId in Column(flags, FlagsKey) by {
      forall o | o in out
        ensures (o.dimIsFiveStar.None? && o.dimIsOneStar.None? && o.reviewScore.None?)
                || o.orderId in Column(flags, FlagsKey)
      {
        var l :| l in rows && JoinedFrom(o, l, flags, RowKey, FlagsKey, AddReview);
        if o != AddReview(l, None) {
          var f :| f in flags && FlagsKey(f) == RowKey(l) && o == AddReview(l, Some(f));
          assert FlagsKey(f) in Column(flags, FlagsKey);
        }
      }
    }
    assert UniqueKeys(flags, FlagsKey) ==>
             |LeftJoin(rows, flags, RowKey, FlagsKey, AddReview)| == |rows|
             && forall i :: 0 <= i < |rows| ==>
                  LeftJoin(rows, flags, RowKey, FlagsKey, AddReview)[i] == AddReview(rows[i], Lookup(flags, FlagsKey, RowKey(rows[i]))) by {
      if UniqueKeys(flags, FlagsKey) {
        LeftJoinUnique(rows, flags, RowKey, FlagsKey, AddReview);
      }
    }
    out
  }

  /** `merge(get_number_items(), on='order_id', how='left')`. */
  function JoinItemCounts(rows: seq<TrainingRow>, counts: seq<ItemCount>): (out: seq<TrainingRow>)
    ensures |out| >= |rows|
    ensures Column(out, WaitColumns) == Column(rows, WaitColumns)
    ensures Column(out, ReviewColumns) == Column(rows, ReviewColumns)
    ensures forall o :: o in out ==> o.numberOfItems.None? || o.orderId in Column(counts, ItemCountKey)
    ensures UniqueKeys(counts, ItemCountKey) ==>
              |out| == |rows|
              && forall i :: 0 <= i < |rows| ==>
                   out[i] == AddItemCount(rows[i], Lookup(counts, ItemCountKey, RowKey(rows[i])))
  {
    var out := LeftJoin(rows, counts, RowKey, ItemCountKey, AddItemCount);
    LeftJoinKeeps(rows, counts, RowKey, ItemCountKey, AddItemCount, WaitColumns, WaitColumns);
    LeftJoinKeeps(rows, counts, RowKey, ItemCountKey, AddItemCount, ReviewColumns, ReviewColumns);
    assert forall o :: o in out ==> o.numberOfItems.None? || o.orderId in Column(counts, ItemCountKey) by {
      forall o | o in out ensures o.numberOfItems.None? || o.orderId in Column(counts, ItemCountKey) {
        var l :| l in rows && JoinedFrom(o, l, counts, RowKey, ItemCountKey, AddItemCount);
        if o != AddItemCount(l, None) {
          var c :| c in counts && ItemCountKey(c) == RowKey(l) && o == AddItemCount(l, Some(c));
          assert ItemCountKey(c) in Column(counts, ItemCountKey);
        }
      }
    }
    assert UniqueKeys(counts, ItemCountKey) ==>
             |LeftJoin(rows, counts, RowKey, ItemCountKey, AddItemCount)| == |rows|
             && forall i :: 0 <= i < |rows| ==>
                  LeftJoin(rows, counts, RowKey, ItemCountKey, AddItemCount)[i] == AddItemCount(rows[i], Lookup(counts, ItemCountKey, RowKey(rows[i]))) by {
      if UniqueKeys(counts, ItemCountKey) {
        LeftJoinUnique(rows, counts, RowKey, ItemCountKey, AddItemCount);
      }
    }
    out
  }

  /** `merge(get_number_sellers(), on='order_id', how='left')`. */
  function JoinSellerCounts(rows: seq<TrainingRow>, counts: seq<SellerCount>): (out: seq<TrainingRow>)
    ensures |out| >= |rows|
    ensures Column(out, WaitColumns) == Column(rows, WaitColumns)
    ensures Column(out, ReviewColumns) == Column(rows, ReviewColumns)
    ensures Column(out, ItemColumns) == Column(rows, ItemColumns)
    ensures UniqueKeys(counts, SellerCountKey) ==>
              |out| == |rows|
              && forall i :: 0 <= i < |rows| ==>
                   out[i] == AddSellerCount(rows[i], Lookup(counts, SellerCountKey, RowKey(rows[i])))
  {
    LeftJoinKeeps(rows, counts, RowKey, SellerCountKey, AddSellerCount, WaitColumns, WaitColumns);
    LeftJoinKeeps(rows, counts, RowKey, SellerCountKey, AddSellerCount, ReviewColumns, ReviewColumns);
    LeftJoinKeeps(rows, counts, RowKey, SellerCountKey, AddSellerCount, ItemColumns, ItemColumns);
    assert UniqueKeys(counts, SellerCountKey) ==>
             |LeftJoin(rows, counts, RowKey, SellerCountKey, AddSellerCount)| == |rows|
             && forall i :: 0 <= i < |rows| ==>
                  LeftJoin(rows, counts, RowKey, SellerCountKey, AddSellerCount)[i] == AddSellerCount(rows[i], Lookup(counts, SellerCountKey, RowKey(rows[i]))) by {
      if UniqueKeys(counts, SellerCountKey) {
        LeftJoinUnique(rows, counts, RowKey, SellerCountKey, AddSellerCount);
      }
    }
    LeftJoin(rows, counts, RowKey, SellerCountKey, AddSellerCount)
  }

  /** `merge(get_price_and_freight(), on='order_id', how='left')`. */
  function JoinPriceFreight(rows: seq<TrainingRow>, sums: seq<PriceFreight>): (out: seq<TrainingRow>)
    ensures |out| >= |rows|
    ensures Column(out, WaitColumns) == Column(rows, WaitColumns)
    ensures Column(out, ReviewColumns) == Column(rows, ReviewColumns)
    ensures Column(out, ItemColumns) == Column(rows, ItemColumns)
    ensures Column(out, Unpriced) == Column(rows, Unpriced)
    ensures UniqueKeys(sums, PriceFreightKey) ==>
              |out| == |rows|
              && forall i :: 0 <= i < |rows| ==>
                   out[i] == AddPriceFreight(rows[i], Lookup(sums, PriceFreightKey, RowKey(rows[i])))
  {
    LeftJoinKeeps(rows, sums, RowKey, PriceFreightKey, AddPriceFreight, WaitColumns, WaitColumns);
    LeftJoinKeeps(rows, sums, RowKey, PriceFreightKey, AddPriceFreight, ReviewColumns, ReviewColumns);
    LeftJoinKeeps(rows, sums, RowKey, PriceFreightKey, AddPriceFreight, ItemColumns, ItemColumns);
    LeftJoinKeeps(rows, sums, RowKey, PriceFreightKey, AddPriceFreight, Unpriced, Unpriced);
    assert UniqueKeys(sums, PriceFreightKey) ==>
             |LeftJoin(rows, sums, RowKey, PriceFreightKey, AddPriceFreight)| == |rows|
             && forall i :: 0 <= i < |rows| ==>
                  LeftJoin(rows, sums, RowKey, PriceFreightKey, AddPriceFreight)[i] == AddPriceFreight(rows[i], Lookup(sums, PriceFreightKey, RowKey(rows[i]))) by {
      if UniqueKeys(sums, PriceFreightKey) {
        LeftJoinUnique(rows, sums, RowKey, PriceFreightKey, AddPriceFreight);
      }
    }
    LeftJoin(rows, sums, RowKey, PriceFreightKey, AddPriceFreight)
  }

  /** `merge(get_distance_seller_customer(), on='order_id', how='left')`: a row
      is repeated once per distance row of its order (one per seller pair),
      and kept once, padded, when its order has none. */
  function JoinDistances(rows: seq<TrainingRow>, distances: seq<DistanceRow>): (out: seq<TrainingRow>)
    ensures |out| == JoinSize(rows, distances, RowKey, DistanceKey)
    ensures forall r, d :: r in rows && d in distances && d.orderId == r.orderId ==>
              AddDistance(r, Some(d)) in out
    ensures forall r :: r in rows && (forall d :: d in distances ==> d.orderId != r.orderId) ==>
              AddDistance(r, None) in out
    ensures Column(out, WaitColumns) == Column(rows, WaitColumns)
    ensures Column(out, ReviewColumns) == Column(rows, ReviewColumns)
    ensures Column(out, ItemColumns) == Column(rows, ItemColumns)
    ensures Column(out, Undistanced) == Column(rows, Undistanced)
    ensures forall o :: o in out ==>
              o.distanceSellerCustomer.None?
              || exists d :: d in distances && d.orderId == o.orderId
                             && o.distanceSellerCustomer == Some(d.distanceSellerCustomer)
  {
    DistanceJoinKeeps(rows, distances);
    DistanceJoinComplete(rows, distances);
    DistanceJoinSource(rows, distances);
    LeftJoinSize(rows, distances, RowKey, DistanceKey, AddDistance);
    LeftJoin(rows, distances, RowKey, DistanceKey, AddDistance)
  }

  /** Every matching (row, distance) pair, and every unmatched row padded,
      appears in the distance merge. */
  lemma DistanceJoinComplete(rows: seq<TrainingRow>, distances: seq<DistanceRow>)
    ensures var out := LeftJoin(rows, distances, RowKey, DistanceKey, AddDistance);
            && (forall r, d :: r in rows && d in distances && d.orderId == r.orderId ==>
                  AddDistance(r, Some(d)) in out)
            && (forall r :: r in rows && (forall d :: d in distances ==> d.orderId != r.orderId) ==>
                  AddDistance(r, None) in out)
  {
    var out := LeftJoin(rows, distances, RowKey, DistanceKey, AddDistance);
    LeftJoinComplete(rows, distances, RowKey, DistanceKey, AddDistance);
    forall r, d | r in rows && d in distances && d.orderId == r.orderId
      ensures AddDistance(r, Some(d)) in out
    {
      assert DistanceKey(d) == RowKey(r);
    }
    forall r | r in rows && (forall d :: d in distances ==> d.orderId != r.orderId)
      ensures AddDistance(r, None) in out
    {
      assert forall d :: d in distances ==> DistanceKey(d) != RowKey(r);
    }
  }

  /** The distance merge copies every other column. */
  lemma DistanceJoinKeeps(rows: seq<TrainingRow>, distances: seq<DistanceRow>)
    ensures var out := LeftJoin(rows, distances, RowKey, DistanceKey, AddDistance);
            && Column(out, WaitColumns) == Column(rows, WaitColumns)
            && Column(out, ReviewColumns) == Column(rows, ReviewColumns)
            && Column(out, ItemColumns) == Column(rows, ItemColumns)
            && Column(out, Undistanced) == Column(rows, Undistanced)
  {
    LeftJoinKeeps(rows, distances, RowKey, DistanceKey, AddDistance, WaitColumns, WaitColumns);
    LeftJoinKeeps(rows, distances, RowKey, DistanceKey, AddDistance, ReviewColumns, ReviewColumns);
    LeftJoinKeeps(rows, distances, RowKey, DistanceKey, AddDistance, ItemColumns, ItemColumns);
    LeftJoinKeeps(rows, distances, RowKey, DistanceKey, AddDistance, Undistanced, Undistanced);
  }

  /** A distance in the merge is the distance of a distance row of the same
      order. */
  lemma DistanceJoinSource(rows: seq<TrainingRow>, distances: seq<DistanceRow>)
    ensures forall o :: o in LeftJoin(rows, distances, RowKey, DistanceKey, AddDistance) ==>
              o.distanceSellerCustomer.None?
              || exists d :: d in distances && d.orderId == o.orderId
                             && o.distanceSellerCustomer == Some(d.distanceSellerCustomer)
  {
  }

  /** The frame after the review and item-count joins. */
  function WithItems(orders: seq<OrderRow>, reviews: seq<ReviewRow>, items: seq<ItemRow>,
                     isDelivered: bool): seq<TrainingRow>
  {
    JoinItemCounts(JoinReviews(Anchor(orders, isDelivered), ReviewScores(reviews)), NumberItems(items))
  }

  /** The frame after the seller-count and price/freight joins. */
  function WithAggregates(orders: seq<OrderRow>, reviews: seq<ReviewRow>, items: seq<ItemRow>,
                          isDelivered: bool): seq<TrainingRow>
  {
    JoinPriceFreight(JoinSellerCounts(WithItems(orders, reviews, items, isDelivered), NumberSellers(items)),
                     PriceAndFreight(items))
  }

  /** The merged frame before `dropna()`: every wait-time row is still there
      (at least once), and no join invents wait-time, review or item values. */
  function Merged(orders: seq<OrderRow>, reviews: seq<ReviewRow>, items: seq<ItemRow>,
                  sellers: seq<SellerRow>, customers: seq<CustomerRow>,
                  isDelivered: bool, withDistance: bool): (m: seq<TrainingRow>)
    ensures |m| >= |WaitTimes(orders, isDelivered)|
    ensures Column(m, WaitColumns) == set w | w in WaitTimes(orders, isDelivered)
    ensures Column(m, ReviewColumns)
            == Column(JoinReviews(Anchor(orders, isDelivered), ReviewScores(reviews)), ReviewColumns)
    ensures Column(m, ItemColumns) == Column(WithItems(orders, reviews, items, isDelivered), ItemColumns)
    ensures withDistance ==>
              forall r :: r in m ==>
                r.distanceSellerCustomer.None?
                || r.distanceSellerCustomer == Some(SameStateDistance)
                || r.distanceSellerCustomer == Some(OtherStateDistance)
  {
    var aggregated := WithAggregates(orders, reviews, items, isDelivered);
    if withDistance then
      var out := JoinDistances(aggregated, DistanceSellerCustomer(items, orders, sellers, customers));
      LeftJoinSize(aggregated, DistanceSellerCustomer(items, orders, sellers, customers),
                   RowKey, DistanceKey, AddDistance);
      out
    else aggregated
  }

  /** `get_training_data(is_delivered, with_distance_seller_customer)`:
      exactly the complete merged rows, each as often as in the merged frame. */
  function TrainingTable(orders: seq<OrderRow>, reviews: seq<ReviewRow>, items: seq<ItemRow>,
                         sellers: seq<SellerRow>, customers: seq<CustomerRow>,
                         isDelivered: bool, withDistance: bool): (t: seq<TrainingRow>)
    ensures forall r :: r in t ==> Complete(r, withDistance)
    ensures forall r :: r in t <==>
              r in Merged(orders, reviews, items, sellers, customers, isDelivered, withDistance)
              && Complete(r, withDistance)
    ensures |t| <= |Merged(orders, reviews, items, sellers, customers, isDelivered, withDistance)|
  {
    Filter(Merged(orders, reviews, items, sellers, customers, isDelivered, withDistance),
           (r: TrainingRow) => Complete(r, withDistance))
  }

  /** `dropna()` keeps every complete merged row as often as it occurs in the
      merged frame, and no other row. */
  lemma TrainingCount(orders: seq<OrderRow>, reviews: seq<ReviewRow>, items: seq<ItemRow>,
                      sellers: seq<SellerRow>, customers: seq<CustomerRow>,
                      isDelivered: bool, withDistance: bool)
    ensures forall r :: multiset(TrainingTable(orders, reviews, items, sellers, customers, isDelivered, withDistance))[r] ==
              if Complete(r, withDistance)
              then multiset(Merged(orders, reviews, items, sellers, customers, isDelivered, withDistance))[r]
              else 0
  {
    FilterCount(Merged(orders, reviews, items, sellers, customers, isDelivered, withDistance),
                (r: TrainingRow) => Complete(r, withDistance));
  }

  /** `dropna()` keeps the merged frame's order: the training rows sit at
      increasing positions of the merged frame, each at a complete row. */
  lemma TrainingOrder(orders: seq<OrderRow>, reviews: seq<ReviewRow>, items: seq<ItemRow>,
                      sellers: seq<SellerRow>, customers: seq<CustomerRow>,
                      isDelivered: bool, withDistance: bool) returns (idx: seq<nat>)
    ensures PicksInOrder(idx, TrainingTable(orders, reviews, items, sellers, customers, isDelivered, withDistance),
                         Merged(orders, reviews, items, sellers, customers, isDelivered, withDistance))
    ensures forall i :: 0 <= i < |idx| ==>
              Complete(Merged(orders, reviews, items, sellers, customers, isDelivered, withDistance)[idx[i]], withDistance)
  {
    idx := FilterIndices(Merged(orders, reviews, items, sellers, customers, isDelivered, withDistance),
                         (r: TrainingRow) => Complete(r, withDistance));
  }

  /** `dropna()` on the distance column matters only when it was requested:
      a row is complete with the distance exactly when it is complete without
      it and its distance is present, and completeness without the distance
      ignores that column. */
  lemma CompleteColumns(t: TrainingRow, d: Option<int>)
    ensures Complete(t, true) <==> Complete(t, false) && t.distanceSellerCustomer.Some?
    ensures Complete(t.(distanceSellerCustomer := d), false) <==> Complete(t, false)
  {
  }

  /** The merge is anchored on the wait-time table: every row's wait-time
      columns are a row of `get_wait_time(is_delivered)`, so every order id
      comes from it and, under the default filter, every order is delivered. */
  lemma TrainingAnchored(orders: seq<OrderRow>, reviews: seq<ReviewRow>, items: seq<ItemRow>,
                         sellers: seq<SellerRow>, customers: seq<CustomerRow>,
                         isDelivered: bool, withDistance: bool)
    ensures forall r :: r in TrainingTable(orders, reviews, items, sellers, customers, isDelivered, withDistance)
              ==> WaitColumns(r) in WaitTimes(orders, isDelivered)
    ensures isDelivered ==>
              forall r :: r in TrainingTable(orders, reviews, items, sellers, customers, isDelivered, withDistance)
                ==> r.orderStatus == Some(Delivered)
  {
    var merged := Merged(orders, reviews, items, sellers, customers, isDelivered, withDistance);
    forall r | r in TrainingTable(orders, reviews, items, sellers, customers, isDelivered, withDistance)
      ensures WaitColumns(r) in WaitTimes(orders, isDelivered)
    {
      assert WaitColumns(r) in Column(merged, WaitColumns);
    }
    if isDelivered {
      DeliveredOnly(orders);
    }
  }

  /** Strict completeness: an order without a review is excluded entirely. */
  lemma MissingReviewDropped(orders: seq<OrderRow>, reviews: seq<ReviewRow>, items: seq<ItemRow>,
                             sellers: seq<SellerRow>, customers: seq<CustomerRow>,
                             isDelivered: bool, withDistance: bool, k: string)
    requires forall r :: r in reviews ==> r.orderId != k
    ensures forall t :: t in TrainingTable(orders, reviews, items, sellers, customers, isDelivered, withDistance)
              ==> t.orderId != k
  {
    var j1 := JoinReviews(Anchor(orders, isDelivered), ReviewScores(reviews));
    assert k !in Column(ReviewScores(reviews), FlagsKey);
    var merged := Merged(orders, reviews, items, sellers, customers, isDelivered, withDistance);
    forall t | t in merged && t.orderId == k
      ensures t.dimIsFiveStar.None?
    {
      assert ReviewColumns(t) in Column(j1, ReviewColumns);
    }
  }

  /** Strict completeness: an order with no item rows is excluded entirely. */
  lemma MissingItemsDropped(orders: seq<OrderRow>, reviews: seq<ReviewRow>, items: seq<ItemRow>,
                            sellers: seq<SellerRow>, customers: seq<CustomerRow>,
                            isDelivered: bool, withDistance: bool, k: string)
    requires forall i :: i in items ==> i.orderId != k
    ensures forall t :: t in TrainingTable(orders, reviews, items, sellers, customers, isDelivered, withDistance)
              ==> t.orderId != k
  {
    var j2 := WithItems(orders, reviews, items, isDelivered);
    assert k !in Column(NumberItems(items), ItemCountKey);
    var merged := Merged(orders, reviews, items, sellers, customers, isDelivered, withDistance);
    forall t | t in merged && t.orderId == k
      ensures t.numberOfItems.None?
    {
      assert ItemColumns(t) in Column(j2, ItemColumns);
    }
  }

  /** Without the distance join and with at most one review per order, every
      join is a lookup, so the result has no more rows than the wait-time table. */
  lemma TrainingRowBound(orders: seq<OrderRow>, reviews: seq<ReviewRow>, items: seq<ItemRow>,
                         sellers: seq<SellerRow>, customers: seq<CustomerRow>, isDelivered: bool)
    requires UniqueKeys(reviews, ReviewKey)
    ensures |TrainingTable(orders, reviews, items, sellers, customers, isDelivered, false)|
            <= |WaitTimes(orders, isDelivered)|
  {
  }

  /** An order has a row in the wait-time table when the filter is off, or
      when it is delivered. */
  lemma WaitRowIndex(orders: seq<OrderRow>, isDelivered: bool, o: OrderRow) returns (i: nat)
    requires o in orders && (isDelivered ==> o.orderStatus == Some(Delivered))
    ensures i < |WaitTimes(orders, isDelivered)| && WaitTimes(orders, isDelivered)[i] == WaitRowOf(o)
  {
    var ws := WaitTimes(orders, isDelivered);
    if !isDelivered {
      var j :| 0 <= j < |orders| && orders[j] == o;
      assert ws[j] == WaitRowOf(o);
    }
    assert WaitRowOf(o) in ws;
    i :| 0 <= i < |ws| && ws[i] == WaitRowOf(o);
  }

  /** The row of `o` after the review and item-count joins, at its anchor position. */
  lemma ItemsStep(orders: seq<OrderRow>, reviews: seq<ReviewRow>, items: seq<ItemRow>,
                  isDelivered: bool, o: OrderRow, rv: ReviewRow, i: nat)
    requires UniqueKeys(reviews, ReviewKey)
    requires rv in reviews && rv.orderId == o.orderId
    requires o.orderId in Column(items, ItemOrderKey)
    requires i < |WaitTimes(orders, isDelivered)| && WaitTimes(orders, isDelivered)[i] == WaitRowOf(o)
    ensures |WithItems(orders, reviews, items, isDelivered)| == |WaitTimes(orders, isDelivered)|
    ensures WithItems(orders, reviews, items, isDelivered)[i]
            == AddItemCount(AddReview(FromWait(WaitRowOf(o)), Some(ReviewFlagsOf(rv))),
                            Some(ItemCount(o.orderId, |Group(items, o.orderId)|)))
  {
    var a := Anchor(orders, isDelivered);
    var flags := ReviewScores(reviews);
    var j1 := JoinReviews(a, flags);
    assert a[i] == FromWait(WaitRowOf(o));
    ReviewOf(reviews, rv);
    assert j1[i] == AddReview(FromWait(WaitRowOf(o)), Some(ReviewFlagsOf(rv)));
    ItemCountOf(items, o.orderId);
  }

  /** The row of `o` after all four aggregate joins, at its anchor position. */
  lemma AggregatesStep(orders: seq<OrderRow>, reviews: seq<ReviewRow>, items: seq<ItemRow>,
                       isDelivered: bool, o: OrderRow, rv: ReviewRow, i: nat)
    requires UniqueKeys(reviews, ReviewKey)
    requires rv in reviews && rv.orderId == o.orderId
    requires o.orderId in Column(items, ItemOrderKey)
    requires i < |WaitTimes(orders, isDelivered)| && WaitTimes(orders, isDelivered)[i] == WaitRowOf(o)
    ensures i < |WithAggregates(orders, reviews, items, isDelivered)|
    ensures var r := WithAggregates(orders, reviews, items, isDelivered)[i];
            && WaitColumns(r) == WaitRowOf(o)
            && r.dimIsFiveStar.Some? && r.dimIsOneStar.Some? && r.reviewScore == rv.reviewScore
            && r.numberOfItems == Some(|Group(items, o.orderId)|)
            && r.numberOfSellers
               == Some(|set it | it in items && it.orderId == o.orderId && it.sellerId.Some? :: it.sellerId.value|)
            && r.price == Some(Sum(Group(items, o.orderId), PriceOf))
            && r.freightValue == Some(Sum(Group(items, o.orderId), FreightOf))
  {
    ItemsStep(orders, reviews, items, isDelivered, o, rv, i);
    var j2 := WithItems(orders, reviews, items, isDelivered);
    var j3 := JoinSellerCounts(j2, NumberSellers(items));
    SellerCountOf(items, o.orderId);
    PriceFreightOf(items, o.orderId);
  }

  /** The converse of the drop lemmas: without the distance join and with one
      review per order, an order with a status (`delivered` when the filter is
      on), all three timestamps, a scored review and at least one item
      survives `dropna`, carrying its own wait row, review score, item count,
      seller count, price and freight. */
  lemma TrainingKeeps(orders: seq<OrderRow>, reviews: seq<ReviewRow>, items: seq<ItemRow>,
                      sellers: seq<SellerRow>, customers: seq<CustomerRow>, isDelivered: bool,
                      o: OrderRow, rv: ReviewRow)
    requires UniqueKeys(reviews, ReviewKey)
    requires o in orders && o.orderStatus.Some?
    requires isDelivered ==> o.orderStatus == Some(Delivered)
    requires o.purchaseTimestamp.Some? && o.deliveredCustomerDate.Some? && o.estimatedDeliveryDate.Some?
    requires rv in reviews && rv.orderId == o.orderId && rv.reviewScore.Some?
    requires o.orderId in Column(items, ItemOrderKey)
    ensures exists r :: r in TrainingTable(orders, reviews, items, sellers, customers, isDelivered, false)
              && WaitColumns(r) == WaitRowOf(o)
              && r.reviewScore == rv.reviewScore
              && r.numberOfItems == Some(|Group(items, o.orderId)|)
              && r.numberOfSellers
                 == Some(|set it | it in items && it.orderId == o.orderId && it.sellerId.Some? :: it.sellerId.value|)
              && r.price == Some(Sum(Group(items, o.orderId), PriceOf))
              && r.freightValue == Some(Sum(Group(items, o.orderId), FreightOf))
  {
    var i := WaitRowIndex(orders, isDelivered, o);
    AggregatesStep(orders, reviews, items, isDelivered, o, rv, i);
    var m := Merged(orders, reviews, items, sellers, customers, isDelivered, false);
    var r := m[i];
    assert r in m;
    assert Complete(r, false);
  }
}
