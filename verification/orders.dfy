/** Records shared by the reconciliation engine and the exchange clients. */
module Orders {
  import opened Wrappers

  datatype Side = Buy | Sell

  datatype OrderType = LimitOrder | MarketOrder

  /** An order request or a live order. `id` stays `None` until the venue
      acknowledges the order; `size` is a whole number of contracts. */
  datatype Order = Order(
    id: Option<int>,
    productId: int,
    side: Side,
    price: real,
    size: int,
    orderType: OrderType,
    postOnly: bool)

  /** An open order as the venue lists it: `unfilledSize` is what still rests. */
  datatype OpenOrder = OpenOrder(
    id: int,
    productId: int,
    side: Side,
    price: real,
    size: int,
    unfilledSize: int,
    postOnly: bool)

  /** A ladder level proposed by a strategy, before venue formatting. */
  datatype Level = Level(price: real, size: real)

  /** A market-order request: `size` contracts on `side`, no price. */
  datatype MarketRequest = MarketRequest(productId: int, side: Side, size: int)

  /** The change a filled market order makes to a position. */
  function Effect(m: MarketRequest): int
  {
    if m.side == Buy then m.size else -m.size
  }

  function Abs(x: real): real { if x < 0.0 then -x else x }

  /** `numpy.sign` on an exact number. */
  function Sign(x: real): real { if x > 0.0 then 1.0 else if x < 0.0 then -1.0 else 0.0 }

  function Prices(os: seq<Order>): seq<real>
  {
    seq(|os|, k requires 0 <= k < |os| => os[k].price)
  }
}
