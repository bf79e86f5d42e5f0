/** The data types of the exchange (crates/shared/src/types.rs).
    Identifiers (order, user and asset names) are naturals.  Prices and quantities are exact
    integers in the smallest unit; FixedPoint.dfy relates them to decimals. */
module Types {

  datatype Option<+T> = None | Some(value: T)

  type OrderId = nat
  type UserId = nat
  type Asset = nat

  /** A trading pair, already split into its two assets. */
  datatype Pair = Pair(base: Asset, quote: Asset)

  datatype Side = Buy | Sell {
    function Opposite(): Side { if Buy? then Sell else Buy }
  }

  datatype OrderType = Limit | Market

  datatype TimeInForce = GTC | IOC | FOK

  datatype OrderStatus = New | PartiallyFilled | Filled | Cancelled | Rejected

  datatype StpMode = StpNone | CancelTaker | CancelMaker | CancelBoth

  datatype Order = Order(
    id: OrderId,
    user: UserId,
    pair: Pair,
    side: Side,
    orderType: OrderType,
    tif: TimeInForce,
    price: Option<int>,
    quantity: int,
    remaining: int,
    status: OrderStatus,
    stp: StpMode)
  {
    function PriceOrZero(): int { if price.Some? then price.value else 0 }

    /** The score of the order in its sorted set: asks by price, bids by negated price. */
    function Score(): int { if side.Buy? then -PriceOrZero() else PriceOrZero() }

    /** An order that the store keeps in the book. */
    predicate IsOpen() { status.New? || status.PartiallyFilled? }

    /** The store removes these from the book and upserts everything else. */
    predicate IsClosed() { status.Filled? || status.Cancelled? }
  }

  datatype Trade = Trade(
    pair: Pair,
    buyOrder: OrderId,
    sellOrder: OrderId,
    buyer: UserId,
    seller: UserId,
    price: int,
    quantity: int)

  function Min(a: int, b: int): int { if a <= b then a else b }

  function Max(a: int, b: int): int { if a <= b then b else a }
}
