/**
 * The source tables the feature builder reads, one datatype per row kind.
 * Identifier columns used as join or group keys are non-null strings; every
 * other column that may hold NaN/NaT is an `Option`. Timestamps are already
 * parsed into whole seconds; prices are integers (e.g. cents).
 */
module Records {
  import opened Wrappers

  /** A row of the `orders` table. */
  datatype OrderRow = OrderRow(
    orderId: string,
    customerId: string,
    orderStatus: Option<string>,
    purchaseTimestamp: Option<int>,
    deliveredCustomerDate: Option<int>,
    estimatedDeliveryDate: Option<int>)

  /** A row of the `order_items` table: one item of one order, sold by one seller. */
  datatype ItemRow = ItemRow(
    orderId: string,
    sellerId: Option<string>,
    price: Option<int>,
    freightValue: Option<int>)

  /** A row of the `order_reviews` table. */
  datatype ReviewRow = ReviewRow(orderId: string, reviewScore: Option<int>)

  /** A row of the `sellers` table. */
  datatype SellerRow = SellerRow(sellerId: string, sellerCity: Option<string>, sellerState: Option<string>)

  /** A row of the `customers` table. */
  datatype CustomerRow = CustomerRow(customerId: string, customerCity: Option<string>, customerState: Option<string>)

  // Key columns, as functions so that generic table operations can take them.

  function OrderKey(o: OrderRow): string { o.orderId }
  function OrderStatus(o: OrderRow): Option<string> { o.orderStatus }
  function ItemOrderKey(i: ItemRow): string { i.orderId }
  function ReviewKey(r: ReviewRow): string { r.orderId }
  function SellerKey(s: SellerRow): Option<string> { Some(s.sellerId) }
  function CustomerKey(c: CustomerRow): Option<string> { Some(c.customerId) }
}
