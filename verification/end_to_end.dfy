/**
 * A worked example of the whole feature builder: one delivered order bought
 * at day 0, delivered at day 4 and expected at day 9; one item of price 100
 * and freight 10 from a seller in the customer's state; a five-star review.
 */
module EndToEnd {
  import opened Wrappers
  import opened Records
  import opened TableOps
  import opened WaitTime
  import opened ReviewScore
  import opened ItemAggregates
  import opened Distance
  import opened TrainingData

  const Orders: seq<OrderRow> :=
    [OrderRow("1", "C1", Some(Delivered), Some(0), Some(4 * SecondsPerDay), Some(9 * SecondsPerDay))]
  const Items: seq<ItemRow> := [ItemRow("1", Some("S1"), Some(100), Some(10))]
  const Reviews: seq<ReviewRow> := [ReviewRow("1", Some(5))]
  const Sellers: seq<SellerRow> := [SellerRow("S1", None, Some("SP"))]
  const Customers: seq<CustomerRow> := [CustomerRow("C1", None, Some("SP"))]

  /** The expected rows after each join. */
  const Reviewed: TrainingRow :=
    TrainingRow("1", Some(4), Some(9), 0, Some(Delivered), Some(1), Some(0), Some(5), None, None, None, None, None)
  const Counted: TrainingRow := Reviewed.(numberOfItems := Some(1))
  const Aggregated: TrainingRow := Counted.(numberOfSellers := Some(1), price := Some(100), freightValue := Some(10))
  const Expected: TrainingRow := Aggregated.(distanceSellerCustomer := Some(SameStateDistance))

  lemma ExampleReviewJoin()
    ensures JoinReviews(Anchor(Orders, true), ReviewScores(Reviews)) == [Reviewed]
  {
    var w := WaitRow("1", Some(4), Some(9), 0, Some(Delivered));
    assert WaitTimes(Orders, true) == [w];
    assert Anchor(Orders, true) == [FromWait(w)];
    assert ReviewScores(Reviews) == [ReviewFlags("1", 1, 0, Some(5))];
    JoinSingletons(FromWait(w), ReviewFlags("1", 1, 0, Some(5)), RowKey, FlagsKey, AddReview);
  }

  lemma ExampleGroups()
    ensures NumberItems(Items) == [ItemCount("1", 1)]
    ensures NumberSellers(Items) == [SellerCount("1", 1)]
    ensures PriceAndFreight(Items) == [PriceFreight("1", 100, 10)]
  {
    assert GroupKeys(Items) == ["1"];
    assert Group(Items, "1") == Items;
    assert SellerSet(Items) == {"S1"};
  }

  lemma ExampleItems()
    ensures WithItems(Orders, Reviews, Items, true) == [Counted]
  {
    ExampleReviewJoin();
    ExampleGroups();
    JoinSingletons(Reviewed, ItemCount("1", 1), RowKey, ItemCountKey, AddItemCount);
  }

  lemma ExampleAggregates()
    ensures WithAggregates(Orders, Reviews, Items, true) == [Aggregated]
  {
    ExampleItems();
    ExampleGroups();
    var withSellers := Counted.(numberOfSellers := Some(1));
    JoinSingletons(Counted, SellerCount("1", 1), RowKey, SellerCountKey, AddSellerCount);
    JoinSingletons(withSellers, PriceFreight("1", 100, 10), RowKey, PriceFreightKey, AddPriceFreight);
  }

  lemma ExampleDistance()
    ensures DistanceSellerCustomer(Items, Orders, Sellers, Customers) == [DistanceRow("1", SameStateDistance)]
  {
    var pair := SellerPair("1", Some("S1"));
    assert SellerPairs(Items) == [pair];
    var l1 := Link("1", Some("S1"), Some("C1"), None, None);
    JoinSingletons(pair, Orders[0], PairOrderKey, OrderKey, AttachCustomer);
    var l2 := l1.(sellerState := Some("SP"));
    JoinSingletons(l1, Sellers[0], LinkSellerKey, SellerKey, AttachSeller);
    var l3 := l2.(customerState := Some("SP"));
    JoinSingletons(l2, Customers[0], LinkCustomerKey, CustomerKey, AttachCustomerState);
    assert Links(Items, Orders, Sellers, Customers) == [l3];
  }

  /** The merged frame, with distance, is the one filled row. */
  lemma ExampleMerged()
    ensures Merged(Orders, Reviews, Items, Sellers, Customers, true, true) == [Expected]
  {
    ExampleAggregates();
    ExampleDistance();
    JoinSingletons(Aggregated, DistanceRow("1", SameStateDistance), RowKey, DistanceKey, AddDistance);
  }

  /** The whole pipeline, with distance, yields the one complete row. */
  lemma EndToEndExample()
    ensures TrainingTable(Orders, Reviews, Items, Sellers, Customers, true, true) == [Expected]
  {
    ExampleMerged();
    TrainingCount(Orders, Reviews, Items, Sellers, Customers, true, true);
    var t := TrainingTable(Orders, Reviews, Items, Sellers, Customers, true, true);
    assert Complete(Expected, true);
    assert multiset(t) == multiset{Expected} by {
      assert forall r :: multiset(t)[r] == multiset{Expected}[r];
    }
    assert |t| == |multiset(t)| == 1;
    assert t[0] in multiset(t);
  }
}
