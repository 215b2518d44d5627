/**
 * `Order.get_number_items`, `get_number_sellers` and `get_price_and_freight`:
 * the `order_items` table grouped by `order_id`, one output row per distinct
 * order id.
 */
module ItemAggregates {
  import opened Wrappers
  import opened Records
  import opened TableOps

  datatype ItemCount = ItemCount(orderId: string, numberOfItems: int)
  datatype SellerCount = SellerCount(orderId: string, numberOfSellers: int)
  datatype PriceFreight = PriceFreight(orderId: string, price: int, freightValue: int)

  function ItemCountKey(c: ItemCount): string { c.orderId }
  function SellerCountKey(c: SellerCount): string { c.orderId }
  function PriceFreightKey(p: PriceFreight): string { p.orderId }

  /** Column values as summed by `groupby(...).sum()`, which skips NaN. */
  function PriceOf(i: ItemRow): int { i.price.GetOr(0) }
  function FreightOf(i: ItemRow): int { i.freightValue.GetOr(0) }
  function One(i: ItemRow): int { 1 }

  /** The group keys: each order id of the items table once. */
  function GroupKeys(items: seq<ItemRow>): (ks: seq<string>)
    ensures Distinct(ks)
    ensures forall k :: k in ks <==> k in Column(items, ItemOrderKey)
  {
    var ids := KeyColumn(items, ItemOrderKey);
    assert forall k :: k in ids <==> k in Column(items, ItemOrderKey) by {
      forall k ensures k in ids <==> k in Column(items, ItemOrderKey) {
        if k in ids {
          var i :| 0 <= i < |ids| && ids[i] == k;
          assert ItemOrderKey(items[i]) == k;
        }
        if k in Column(items, ItemOrderKey) {
          var r :| r in items && ItemOrderKey(r) == k;
          var i :| 0 <= i < |items| && items[i] == r;
          assert ids[i] == k;
        }
      }
    }
    Dedup(ids)
  }

  /** The item rows of order `k`. */
  function Group(items: seq<ItemRow>, k: string): seq<ItemRow> {
    Matches(items, ItemOrderKey, k)
  }

  /** The distinct non-null seller ids among `rows` (`nunique` skips NaN). */
  function SellerSet(rows: seq<ItemRow>): (s: set<string>)
    ensures forall x :: x in s <==> exists r :: r in rows && r.sellerId == Some(x)
  {
    if |rows| == 0 then {}
    else
      var rest := SellerSet(rows[1..]);
      assert forall r :: r in rows <==> r == rows[0] || r in rows[1..] by {
        assert rows == [rows[0]] + rows[1..];
      }
      if rows[0].sellerId.Some? then {rows[0].sellerId.value} + rest else rest
  }

  /** Count-distinct never exceeds count. */
  lemma {:induction false} SellerSetSize(rows: seq<ItemRow>)
    ensures |SellerSet(rows)| <= |rows|
  {
    if |rows| != 0 {
      SellerSetSize(rows[1..]);
      var rest := SellerSet(rows[1..]);
      if rows[0].sellerId.Some? {
        assert |{rows[0].sellerId.value} + rest| <= |rest| + 1;
      }
    }
  }

  /** `groupby('order_id').size()`. */
  function NumberItems(items: seq<ItemRow>): (t: seq<ItemCount>)
    ensures |t| == |GroupKeys(items)|
    ensures UniqueKeys(t, ItemCountKey)
    ensures Column(t, ItemCountKey) == Column(items, ItemOrderKey)
    ensures forall i :: 0 <= i < |t| ==>
              t[i].orderId == GroupKeys(items)[i]
              && t[i].numberOfItems == multiset(KeyColumn(items, ItemOrderKey))[t[i].orderId]
              && t[i].numberOfItems >= 1
  {
    var ks := GroupKeys(items);
    var t := seq(|ks|, i requires 0 <= i < |ks| => ItemCount(ks[i], |Group(items, ks[i])|));
    forall i | 0 <= i < |ks|
      ensures t[i].numberOfItems == multiset(KeyColumn(items, ItemOrderKey))[ks[i]]
      ensures t[i].numberOfItems >= 1
    {
      MatchesCount(items, ItemOrderKey, ks[i]);
      assert ks[i] in Column(items, ItemOrderKey) by { assert ks[i] in ks; }
      var r :| r in items && ItemOrderKey(r) == ks[i];
      assert r in Group(items, ks[i]);
    }
    KeyedByGroupKeys(items, t, ItemCountKey);
    t
  }

  /** `groupby('order_id')['seller_id'].nunique()`. */
  function NumberSellers(items: seq<ItemRow>): (t: seq<SellerCount>)
    ensures |t| == |GroupKeys(items)|
    ensures UniqueKeys(t, SellerCountKey)
    ensures Column(t, SellerCountKey) == Column(items, ItemOrderKey)
    ensures forall i :: 0 <= i < |t| ==>
              t[i].orderId == GroupKeys(items)[i]
              && t[i].numberOfSellers ==
                   |set r | r in items && r.orderId == t[i].orderId && r.sellerId.Some? :: r.sellerId.value|
  {
    var ks := GroupKeys(items);
    var t := seq(|ks|, i requires 0 <= i < |ks| => SellerCount(ks[i], |SellerSet(Group(items, ks[i]))|));
    forall i | 0 <= i < |ks|
      ensures SellerSet(Group(items, ks[i]))
              == set r | r in items && r.orderId == ks[i] && r.sellerId.Some? :: r.sellerId.value
    {
    }
    KeyedByGroupKeys(items, t, SellerCountKey);
    t
  }

  /** Per-order price and freight sums over `ks`, in key order. */
  function PriceRows(items: seq<ItemRow>, ks: seq<string>): (t: seq<PriceFreight>)
    ensures |t| == |ks|
    ensures forall i :: 0 <= i < |ks| ==> t[i].orderId == ks[i]
  {
    if |ks| == 0 then []
    else
      var g := Group(items, ks[0]);
      [PriceFreight(ks[0], Sum(g, PriceOf), Sum(g, FreightOf))] + PriceRows(items, ks[1..])
  }

  /** `groupby('order_id')[['price', 'freight_value']].sum()`. */
  function PriceAndFreight(items: seq<ItemRow>): (t: seq<PriceFreight>)
    ensures |t| == |GroupKeys(items)|
    ensures UniqueKeys(t, PriceFreightKey)
    ensures Column(t, PriceFreightKey) == Column(items, ItemOrderKey)
    ensures forall i :: 0 <= i < |t| ==>
              t[i].orderId == GroupKeys(items)[i]
              && t[i].price == Sum(Group(items, t[i].orderId), PriceOf)
              && t[i].freightValue == Sum(Group(items, t[i].orderId), FreightOf)
  {
    var ks := GroupKeys(items);
    var t := PriceRows(items, ks);
    PriceRowsSums(items, ks);
    KeyedByGroupKeys(items, t, PriceFreightKey);
    t
  }

  lemma {:induction false} PriceRowsSums(items: seq<ItemRow>, ks: seq<string>)
    ensures forall i :: 0 <= i < |ks| ==>
              PriceRows(items, ks)[i].price == Sum(Group(items, ks[i]), PriceOf)
              && PriceRows(items, ks)[i].freightValue == Sum(Group(items, ks[i]), FreightOf)
  {
    if |ks| != 0 {
      PriceRowsSums(items, ks[1..]);
      forall i | 1 <= i < |ks| ensures ks[1..][i - 1] == ks[i] { }
    }
  }

  /** A table with one row per group key, in key order, is keyed exactly by
      the item order ids, each once. */
  lemma KeyedByGroupKeys<T(!new)>(items: seq<ItemRow>, t: seq<T>, key: T -> string)
    requires |t| == |GroupKeys(items)|
    requires forall i :: 0 <= i < |t| ==> key(t[i]) == GroupKeys(items)[i]
    ensures UniqueKeys(t, key)
    ensures Column(t, key) == Column(items, ItemOrderKey)
  {
    var ks := GroupKeys(items);
    forall k | k in Column(items, ItemOrderKey) ensures k in Column(t, key) {
      var i :| 0 <= i < |ks| && ks[i] == k;
      assert key(t[i]) == k;
    }
  }

  /** Row by row, the seller count of an order is at most its item count. */
  lemma SellersAtMostItems(items: seq<ItemRow>)
    ensures |NumberSellers(items)| == |NumberItems(items)|
    ensures forall i :: 0 <= i < |NumberItems(items)| ==>
              NumberSellers(items)[i].orderId == NumberItems(items)[i].orderId
              && 0 <= NumberSellers(items)[i].numberOfSellers <= NumberItems(items)[i].numberOfItems
  {
    var ks := GroupKeys(items);
    forall i | 0 <= i < |ks|
      ensures NumberSellers(items)[i].numberOfSellers <= NumberItems(items)[i].numberOfItems
    {
      SellerSetSize(Group(items, ks[i]));
      MatchesCount(items, ItemOrderKey, ks[i]);
    }
  }

  /** Summed over all orders, the per-order sums give back the totals over all
      item rows: grouping loses and duplicates no item. */
  lemma {:induction false} PriceAndFreightTotals(items: seq<ItemRow>)
    ensures Sum(PriceAndFreight(items), (p: PriceFreight) => p.price) == Sum(items, PriceOf)
    ensures Sum(PriceAndFreight(items), (p: PriceFreight) => p.freightValue) == Sum(items, FreightOf)
    ensures Sum(NumberItems(items), (c: ItemCount) => c.numberOfItems) == |items|
  {
    var ks := GroupKeys(items);
    GroupedSumTotal(items, ItemOrderKey, ks, PriceOf);
    GroupedSumTotal(items, ItemOrderKey, ks, FreightOf);
    GroupedSumTotal(items, ItemOrderKey, ks, One);
    PriceRowsTotal(items, ks);
    CountRowsTotal(items, ks);
    SumOne(items);
  }

  lemma {:induction false} PriceRowsTotal(items: seq<ItemRow>, ks: seq<string>)
    ensures Sum(PriceRows(items, ks), (p: PriceFreight) => p.price) == GroupedSum(items, ItemOrderKey, ks, PriceOf)
    ensures Sum(PriceRows(items, ks), (p: PriceFreight) => p.freightValue)
            == GroupedSum(items, ItemOrderKey, ks, FreightOf)
  {
    if |ks| != 0 {
      PriceRowsTotal(items, ks[1..]);
    }
  }

  lemma {:induction false} CountRowsTotal(items: seq<ItemRow>, ks: seq<string>)
    ensures Sum(seq(|ks|, i requires 0 <= i < |ks| => ItemCount(ks[i], |Group(items, ks[i])|)),
                (c: ItemCount) => c.numberOfItems)
            == GroupedSum(items, ItemOrderKey, ks, One)
  {
    if |ks| != 0 {
      CountRowsTotal(items, ks[1..]);
      SumOne(Group(items, ks[0]));
      var t := seq(|ks|, i requires 0 <= i < |ks| => ItemCount(ks[i], |Group(items, ks[i])|));
      assert t[1..] == seq(|ks[1..]|, i requires 0 <= i < |ks[1..]| => ItemCount(ks[1..][i], |Group(items, ks[1..][i])|));
    }
  }

  lemma {:induction false} SumOne(rows: seq<ItemRow>)
    ensures Sum(rows, One) == |rows|
  {
    if |rows| != 0 {
      SumOne(rows[1..]);
    }
  }

  /** The group key at which order `k` sits. */
  lemma GroupIndex(items: seq<ItemRow>, k: string) returns (i: nat)
    requires k in Column(items, ItemOrderKey)
    ensures i < |GroupKeys(items)| && GroupKeys(items)[i] == k
  {
    var ks := GroupKeys(items);
    assert k in ks;
    i :| 0 <= i < |ks| && ks[i] == k;
  }

  /** Looking an order up in the item-count table finds its item count. */
  lemma ItemCountOf(items: seq<ItemRow>, k: string)
    requires k in Column(items, ItemOrderKey)
    ensures Lookup(NumberItems(items), ItemCountKey, k) == Some(ItemCount(k, |Group(items, k)|))
  {
    var t := NumberItems(items);
    var i := GroupIndex(items, k);
    MatchesCount(items, ItemOrderKey, k);
    LookupUnique(t, ItemCountKey, t[i]);
  }

  /** Looking an order up in the seller-count table finds its number of
      distinct non-null seller ids. */
  lemma SellerCountOf(items: seq<ItemRow>, k: string)
    requires k in Column(items, ItemOrderKey)
    ensures Lookup(NumberSellers(items), SellerCountKey, k)
            == Some(SellerCount(k, |set r | r in items && r.orderId == k && r.sellerId.Some? :: r.sellerId.value|))
  {
    var t := NumberSellers(items);
    var i := GroupIndex(items, k);
    LookupUnique(t, SellerCountKey, t[i]);
  }

  /** Looking an order up in the price/freight table finds its two sums. */
  lemma PriceFreightOf(items: seq<ItemRow>, k: string)
    requires k in Column(items, ItemOrderKey)
    ensures Lookup(PriceAndFreight(items), PriceFreightKey, k)
            == Some(PriceFreight(k, Sum(Group(items, k), PriceOf), Sum(Group(items, k), FreightOf)))
  {
    var t := PriceAndFreight(items);
    var i := GroupIndex(items, k);
    LookupUnique(t, PriceFreightKey, t[i]);
  }
}
