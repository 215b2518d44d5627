/**
 * `Order.get_distance_seller_customer`: a coarse distance per
 * (order, seller) pair: 50 when the seller and the customer are in the same
 * state, 500 otherwise.
 */
module Distance {
  import opened Wrappers
  import opened Records
  import opened TableOps

  const SameStateDistance: int := 50
  const OtherStateDistance: int := 500

  /** The `(order_id, seller_id)` projection of an item row. */
  datatype SellerPair = SellerPair(orderId: string, sellerId: Option<string>)

  /** A row of the intermediate frame built by the three left joins. */
  datatype Link = Link(
    orderId: string,
    sellerId: Option<string>,
    customerId: Option<string>,
    sellerState: Option<string>,
    customerState: Option<string>)

  /** A row of the distance table. */
  datatype DistanceRow = DistanceRow(orderId: string, distanceSellerCustomer: int)

  function PairOf(i: ItemRow): SellerPair { SellerPair(i.orderId, i.sellerId) }
  function PairOrderKey(p: SellerPair): string { p.orderId }
  function LinkOrderId(l: Link): string { l.orderId }
  function LinkSellerKey(l: Link): Option<string> { l.sellerId }
  function LinkCustomerKey(l: Link): Option<string> { l.customerId }

  /** `order_items[['order_id', 'seller_id']].drop_duplicates()`. */
  function SellerPairs(items: seq<ItemRow>): (ps: seq<SellerPair>)
    ensures Distinct(ps)
    ensures forall p :: p in ps <==> p in Column(items, PairOf)
  {
    var all := KeyColumn(items, PairOf);
    assert forall p :: p in all <==> p in Column(items, PairOf) by {
      forall p ensures p in all <==> p in Column(items, PairOf) {
        if p in all {
          var i :| 0 <= i < |all| && all[i] == p;
          assert PairOf(items[i]) == p;
        }
        if p in Column(items, PairOf) {
          var r :| r in items && PairOf(r) == p;
          var i :| 0 <= i < |items| && items[i] == r;
          assert all[i] == p;
        }
      }
    }
    Dedup(all)
  }

  /** The pairs come in item order: each sits at the first item row that
      carries it, at increasing positions. */
  lemma SellerPairsOrder(items: seq<ItemRow>) returns (idx: seq<nat>)
    ensures PicksInOrder(idx, SellerPairs(items), KeyColumn(items, PairOf))
    ensures AtFirstOccurrences(idx, KeyColumn(items, PairOf))
  {
    idx := DedupIndices(KeyColumn(items, PairOf));
  }

  /** Merge with `orders` on `order_id`: picks up the customer id. */
  function AttachCustomer(p: SellerPair, o: Option<OrderRow>): Link {
    Link(p.orderId, p.sellerId, if o.Some? then Some(o.value.customerId) else None, None, None)
  }

  /** Merge with `sellers` on `seller_id`: picks up the seller's state. */
  function AttachSeller(l: Link, s: Option<SellerRow>): Link {
    l.(sellerState := if s.Some? then s.value.sellerState else None)
  }

  /** Merge with `customers` on `customer_id`: picks up the customer's state. */
  function AttachCustomerState(l: Link, c: Option<CustomerRow>): Link {
    l.(customerState := if c.Some? then c.value.customerState else None)
  }

  /** `np.where(seller_state == customer_state, 50, 500)`; NaN equals nothing. */
  function DistanceOf(l: Link): (d: int)
    ensures d == SameStateDistance || d == OtherStateDistance
    ensures d == SameStateDistance <==> l.sellerState.Some? && l.customerState.Some?
                                          && l.sellerState.value == l.customerState.value
  {
    if l.sellerState.Some? && l.sellerState == l.customerState then SameStateDistance else OtherStateDistance
  }

  /** The `(order_id, seller_id)` a link was built from. */
  function LinkPair(l: Link): SellerPair { SellerPair(l.orderId, l.sellerId) }
  function PairItself(p: SellerPair): SellerPair { p }
  function DistanceOrderKey(d: DistanceRow): string { d.orderId }

  /** The frame after the three left joins: every distinct pair of the items
      table is kept (at least once), and no other pair appears. */
  function Links(items: seq<ItemRow>, orders: seq<OrderRow>, sellers: seq<SellerRow>,
                 customers: seq<CustomerRow>): (ls: seq<Link>)
    ensures |ls| >= |SellerPairs(items)|
    ensures Column(ls, LinkPair) == Column(items, PairOf)
  {
    var ps := SellerPairs(items);
    var withCustomer := LeftJoin(ps, orders, PairOrderKey, OrderKey, AttachCustomer);
    var withSeller := LeftJoin(withCustomer, sellers, LinkSellerKey, SellerKey, AttachSeller);
    LeftJoinKeeps(ps, orders, PairOrderKey, OrderKey, AttachCustomer, PairItself, LinkPair);
    LeftJoinKeeps(withCustomer, sellers, LinkSellerKey, SellerKey, AttachSeller, LinkPair, LinkPair);
    LeftJoinKeeps(withSeller, customers, LinkCustomerKey, CustomerKey, AttachCustomerState, LinkPair, LinkPair);
    assert Column(ps, PairItself) == Column(items, PairOf) by {
      forall p ensures p in Column(ps, PairItself) <==> p in Column(items, PairOf) {
        if p in Column(items, PairOf) {
          assert PairItself(p) == p;
        }
      }
    }
    LeftJoin(withSeller, customers, LinkCustomerKey, CustomerKey, AttachCustomerState)
  }

  /** The distance column computed over the joined frame, one row per link. */
  function DistanceRows(ls: seq<Link>): (t: seq<DistanceRow>)
    ensures |t| == |ls|
    ensures forall i :: 0 <= i < |t| ==>
              t[i].orderId == ls[i].orderId && t[i].distanceSellerCustomer == DistanceOf(ls[i])
    ensures Column(t, DistanceOrderKey) == Column(ls, LinkOrderId)
  {
    var t := seq(|ls|, i requires 0 <= i < |ls| => DistanceRow(ls[i].orderId, DistanceOf(ls[i])));
    assert Column(t, DistanceOrderKey) == Column(ls, LinkOrderId) by {
      forall k ensures k in Column(t, DistanceOrderKey) <==> k in Column(ls, LinkOrderId) {
        if k in Column(t, DistanceOrderKey) {
          var d :| d in t && DistanceOrderKey(d) == k;
          var i :| 0 <= i < |t| && t[i] == d;
          assert LinkOrderId(ls[i]) == k;
        }
        if k in Column(ls, LinkOrderId) {
          var l :| l in ls && LinkOrderId(l) == k;
          var i :| 0 <= i < |ls| && ls[i] == l;
          assert DistanceOrderKey(t[i]) == k;
        }
      }
    }
    t
  }

  /** `get_distance_seller_customer()`: one distance row per link, in order,
      so every distinct `(order_id, seller_id)` pair of the items table has a
      row, and the table's order ids are exactly those of the items table. */
  function DistanceSellerCustomer(items: seq<ItemRow>, orders: seq<OrderRow>, sellers: seq<SellerRow>,
                                  customers: seq<CustomerRow>): (t: seq<DistanceRow>)
    ensures |t| == |Links(items, orders, sellers, customers)| >= |SellerPairs(items)|
    ensures forall i :: 0 <= i < |t| ==>
              t[i].orderId == Links(items, orders, sellers, customers)[i].orderId
              && t[i].distanceSellerCustomer == DistanceOf(Links(items, orders, sellers, customers)[i])
    ensures forall d :: d in t ==>
              d.distanceSellerCustomer == SameStateDistance || d.distanceSellerCustomer == OtherStateDistance
    ensures Column(t, DistanceOrderKey) == Column(items, ItemOrderKey)
  {
    var ls := Links(items, orders, sellers, customers);
    LinksOrderIds(items, orders, sellers, customers);
    var t := DistanceRows(ls);
    assert forall d :: d in t ==>
             d.distanceSellerCustomer == SameStateDistance || d.distanceSellerCustomer == OtherStateDistance by {
      forall d | d in t
        ensures d.distanceSellerCustomer == SameStateDistance || d.distanceSellerCustomer == OtherStateDistance
      {
        var i :| 0 <= i < |t| && t[i] == d;
      }
    }
    t
  }

  /** No pair is lost: every distinct `(order_id, seller_id)` pair of the
      items table has a distance row, built from a link of that pair. */
  lemma EveryPairHasDistance(items: seq<ItemRow>, orders: seq<OrderRow>, sellers: seq<SellerRow>,
                             customers: seq<CustomerRow>, p: SellerPair)
    requires p in Column(items, PairOf)
    ensures exists i :: 0 <= i < |DistanceSellerCustomer(items, orders, sellers, customers)|
              && LinkPair(Links(items, orders, sellers, customers)[i]) == p
              && DistanceSellerCustomer(items, orders, sellers, customers)[i].orderId == p.orderId
  {
    var ls := Links(items, orders, sellers, customers);
    var t := DistanceSellerCustomer(items, orders, sellers, customers);
    var i := PairIndex(ls, items, p);
    assert t[i].orderId == ls[i].orderId;
  }

  /** The position of a link built from pair `p`. */
  lemma PairIndex(ls: seq<Link>, items: seq<ItemRow>, p: SellerPair) returns (i: nat)
    requires Column(ls, LinkPair) == Column(items, PairOf)
    requires p in Column(items, PairOf)
    ensures i < |ls| && LinkPair(ls[i]) == p
  {
    assert p in Column(ls, LinkPair);
    var l :| l in ls && LinkPair(l) == p;
    i :| 0 <= i < |ls| && ls[i] == l;
  }

  /** The order ids of the links are exactly those of the items table. */
  lemma LinksOrderIds(items: seq<ItemRow>, orders: seq<OrderRow>, sellers: seq<SellerRow>,
                      customers: seq<CustomerRow>)
    ensures Column(Links(items, orders, sellers, customers), LinkOrderId) == Column(items, ItemOrderKey)
  {
    PairsGiveOrderIds(Links(items, orders, sellers, customers), items);
  }

  /** Links whose pairs are the items' pairs have the items' order ids. */
  lemma PairsGiveOrderIds(ls: seq<Link>, items: seq<ItemRow>)
    requires Column(ls, LinkPair) == Column(items, PairOf)
    ensures Column(ls, LinkOrderId) == Column(items, ItemOrderKey)
  {
    forall k ensures k in Column(ls, LinkOrderId) <==> k in Column(items, ItemOrderKey) {
      if k in Column(ls, LinkOrderId) {
        var l :| l in ls && LinkOrderId(l) == k;
        assert LinkPair(l) in Column(items, PairOf);
        var r :| r in items && PairOf(r) == LinkPair(l);
        assert ItemOrderKey(r) == k;
      }
      if k in Column(items, ItemOrderKey) {
        var r :| r in items && ItemOrderKey(r) == k;
        assert PairOf(r) in Column(ls, LinkPair);
        var l :| l in ls && LinkPair(l) == PairOf(r);
        assert LinkOrderId(l) == k;
      }
    }
  }

  /** The relational meaning of "same state": the order's customer and the
      pair's seller both exist and carry the same (present) state. */
  ghost predicate SameState(p: SellerPair, orders: seq<OrderRow>, sellers: seq<SellerRow>,
                            customers: seq<CustomerRow>)
  {
    exists o, s, c :: o in orders && s in sellers && c in customers
      && o.orderId == p.orderId && p.sellerId == Some(s.sellerId) && c.customerId == o.customerId
      && s.sellerState.Some? && s.sellerState == c.customerState
  }

  /** When orders, sellers and customers are keyed uniquely, there is exactly
      one distance row per distinct (order, seller) pair, in order, and it is
      50 exactly when seller and customer are in the same state. */
  lemma DistanceUnique(items: seq<ItemRow>, orders: seq<OrderRow>, sellers: seq<SellerRow>,
                       customers: seq<CustomerRow>)
    requires UniqueKeys(orders, OrderKey)
    requires UniqueKeys(sellers, SellerKey)
    requires UniqueKeys(customers, CustomerKey)
    ensures |DistanceSellerCustomer(items, orders, sellers, customers)| == |SellerPairs(items)|
    ensures forall i :: 0 <= i < |SellerPairs(items)| ==>
              DistanceSellerCustomer(items, orders, sellers, customers)[i].orderId == SellerPairs(items)[i].orderId
              && (DistanceSellerCustomer(items, orders, sellers, customers)[i].distanceSellerCustomer
                    == SameStateDistance
                  <==> SameState(SellerPairs(items)[i], orders, sellers, customers))
  {
    var ps := SellerPairs(items);
    var withCustomer := LeftJoin(ps, orders, PairOrderKey, OrderKey, AttachCustomer);
    var withSeller := LeftJoin(withCustomer, sellers, LinkSellerKey, SellerKey, AttachSeller);
    var ls := LeftJoin(withSeller, customers, LinkCustomerKey, CustomerKey, AttachCustomerState);
    LeftJoinUnique(ps, orders, PairOrderKey, OrderKey, AttachCustomer);
    LeftJoinUnique(withCustomer, sellers, LinkSellerKey, SellerKey, AttachSeller);
    LeftJoinUnique(withSeller, customers, LinkCustomerKey, CustomerKey, AttachCustomerState);
    var t := DistanceSellerCustomer(items, orders, sellers, customers);
    forall i | 0 <= i < |ps|
      ensures t[i].orderId == ps[i].orderId
      ensures t[i].distanceSellerCustomer == SameStateDistance <==> SameState(ps[i], orders, sellers, customers)
    {
      LinkAgreesWithTables(ps[i], orders, sellers, customers);
    }
  }

  /** The three lookups for one pair, under unique keys. */
  lemma LinkAgreesWithTables(p: SellerPair, orders: seq<OrderRow>, sellers: seq<SellerRow>,
                             customers: seq<CustomerRow>)
    requires UniqueKeys(orders, OrderKey)
    requires UniqueKeys(sellers, SellerKey)
    requires UniqueKeys(customers, CustomerKey)
    ensures var l1 := AttachCustomer(p, Lookup(orders, OrderKey, p.orderId));
            var l2 := AttachSeller(l1, Lookup(sellers, SellerKey, l1.sellerId));
            var l3 := AttachCustomerState(l2, Lookup(customers, CustomerKey, l2.customerId));
            l3.orderId == p.orderId
            && (DistanceOf(l3) == SameStateDistance <==> SameState(p, orders, sellers, customers))
  {
    var l1 := AttachCustomer(p, Lookup(orders, OrderKey, p.orderId));
    var l2 := AttachSeller(l1, Lookup(sellers, SellerKey, l1.sellerId));
    var l3 := AttachCustomerState(l2, Lookup(customers, CustomerKey, l2.customerId));
    if SameState(p, orders, sellers, customers) {
      var o, s, c :| o in orders && s in sellers && c in customers
        && o.orderId == p.orderId && p.sellerId == Some(s.sellerId) && c.customerId == o.customerId
        && s.sellerState.Some? && s.sellerState == c.customerState;
      LookupUnique(orders, OrderKey, o);
      LookupUnique(sellers, SellerKey, s);
      LookupUnique(customers, CustomerKey, c);
    }
    if DistanceOf(l3) == SameStateDistance {
      var o := Lookup(orders, OrderKey, p.orderId).value;
      var s := Lookup(sellers, SellerKey, l1.sellerId).value;
      var c := Lookup(customers, CustomerKey, l2.customerId).value;
      assert o in orders && s in sellers && c in customers;
    }
  }
}
