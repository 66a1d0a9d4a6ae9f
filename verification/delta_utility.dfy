/** Tick rounding and the order/cancel record formats of the venue helper module. */
module DeltaUtility {
  import opened Wrappers
  import opened Orders
  import opened RealArith

  /** The `floor_or_ceil` argument; `Nearest` stands for the source's `None`. */
  datatype Mode = Floor | Ceil | Nearest

  /** Python's `int()` on a number: truncation toward zero. */
  function Trunc(x: real): (n: int)
    ensures x >= 0.0 ==> n as real <= x < n as real + 1.0
    ensures x <= 0.0 ==> n as real - 1.0 < x <= n as real
  {
    if x >= 0.0 then x.Floor else -((-x).Floor)
  }

  /** Python's `Decimal` remainder: its sign follows the dividend. */
  function Rem(x: real, tick: real): (r: real)
    requires tick != 0.0
    ensures tick > 0.0 && x >= 0.0 ==> 0.0 <= r < tick
    ensures tick > 0.0 && x <= 0.0 ==> -tick < r <= 0.0
  {
    RemBounds(x, tick);
    x - tick * (Trunc(x / tick) as real)
  }

  lemma RemBounds(x: real, tick: real)
    requires tick != 0.0
    ensures var r := x - tick * (Trunc(x / tick) as real);
      && (tick > 0.0 && x >= 0.0 ==> 0.0 <= r < tick)
      && (tick > 0.0 && x <= 0.0 ==> -tick < r <= 0.0)
  {
    if tick > 0.0 {
      DivSign(x, tick);
      if x >= 0.0 {
        RemainderAbove(tick, Trunc(x / tick) as real, x);
      }
      if x <= 0.0 {
        RemainderBelow(tick, Trunc(x / tick) as real, x);
      }
    }
  }

  /** `x` is a whole number of ticks. */
  predicate IsMultipleOf(x: real, tick: real)
    requires tick != 0.0
  {
    (x / tick).Floor as real == x / tick
  }

  /** `tick * k` is a whole number of ticks. */
  lemma WholeTicks(y: real, k: int, tick: real)
    requires tick != 0.0 && y == tick * k as real
    ensures IsMultipleOf(y, tick)
  {
    assert y / tick == k as real;
  }

  /** The remainder vanishes exactly on whole multiples of the tick. */
  lemma RemZeroIffMultiple(x: real, tick: real)
    requires tick != 0.0
    ensures Rem(x, tick) == 0.0 <==> IsMultipleOf(x, tick)
  {
    var q := x / tick;
    assert x == tick * q;
    assert Rem(x, tick) == tick * (q - Trunc(q) as real);
  }

  /** Subtracting the remainder always lands on a whole number of ticks. */
  lemma LessRemIsMultiple(x: real, tick: real)
    requires tick != 0.0
    ensures IsMultipleOf(x - Rem(x, tick), tick)
    ensures IsMultipleOf(x - Rem(x, tick) + tick, tick)
  {
    var n := Trunc(x / tick);
    var down := x - Rem(x, tick);
    assert down == tick * n as real;
    WholeTicks(down, n, tick);
    NextTick(down, n, tick);
  }

  lemma NextTick(y: real, n: int, tick: real)
    requires tick != 0.0 && y == tick * n as real
    ensures IsMultipleOf(y + tick, tick)
  {
    assert y + tick == tick * (n + 1) as real;
    WholeTicks(y + tick, n + 1, tick);
  }

  /** `round_by_tick_size`: an exact multiple is returned as is; otherwise
      `Floor` drops the remainder, `Ceil` moves up to the next tick, and
      `Nearest` picks `Ceil` when the remainder is at least half a tick. */
  function RoundByTickSize(price: real, tick: real, mode: Mode): real
    requires tick != 0.0
  {
    var remainder := Rem(price, tick);
    if remainder == 0.0 then price
    else if mode == Ceil || (mode == Nearest && remainder >= tick / 2.0) then price - remainder + tick
    else price - remainder
  }

  /** Every mode yields a whole number of ticks, and exact multiples are fixed points. */
  lemma RoundByTickSizeOnGrid(price: real, tick: real, mode: Mode)
    requires tick != 0.0
    ensures IsMultipleOf(RoundByTickSize(price, tick, mode), tick)
    ensures IsMultipleOf(price, tick) ==> RoundByTickSize(price, tick, mode) == price
  {
    RemZeroIffMultiple(price, tick);
    LessRemIsMultiple(price, tick);
  }

  /** `Floor` on a non-negative price: the largest tick multiple not above it. */
  lemma RoundFloorBounds(price: real, tick: real)
    requires tick > 0.0 && price >= 0.0
    ensures var r := RoundByTickSize(price, tick, Floor);
      IsMultipleOf(r, tick) && r <= price && r > price - tick
  {
    RoundByTickSizeOnGrid(price, tick, Floor);
  }

  /** `Ceil` on a non-negative price off the grid: the next tick strictly above. */
  lemma RoundCeilBounds(price: real, tick: real)
    requires tick > 0.0 && price >= 0.0
    requires !IsMultipleOf(price, tick)
    ensures var r := RoundByTickSize(price, tick, Ceil);
      IsMultipleOf(r, tick) && price < r < price + tick
  {
    RoundByTickSizeOnGrid(price, tick, Ceil);
    RemZeroIffMultiple(price, tick);
  }

  /** With no mode, the result is the nearest tick multiple, halves going up. */
  lemma RoundNearestIsNearest(price: real, tick: real)
    requires tick > 0.0 && price >= 0.0
    ensures var r := RoundByTickSize(price, tick, Nearest);
      && IsMultipleOf(r, tick)
      && Abs(r - price) <= tick / 2.0
      && (r < price ==> price - r < tick / 2.0)
      && (r > price ==> r - price <= tick / 2.0)
  {
    RoundByTickSizeOnGrid(price, tick, Nearest);
  }

  /** Rounding an already rounded price, in any mode, leaves it unchanged. */
  lemma RoundByTickSizeIdempotent(price: real, tick: real, m1: Mode, m2: Mode)
    requires tick != 0.0
    ensures RoundByTickSize(RoundByTickSize(price, tick, m1), tick, m2) == RoundByTickSize(price, tick, m1)
  {
    RoundByTickSizeOnGrid(price, tick, m1);
    RoundByTickSizeOnGrid(RoundByTickSize(price, tick, m1), tick, m2);
  }

  /** `order_convert_format`: a limit-order request carrying the given price,
      size, side and product, not yet acknowledged. */
  function OrderConvertFormat(price: real, size: int, side: Side, productId: int): (o: Order)
    ensures o.orderType == LimitOrder && o.id == None
    ensures o.price == price && o.size == size && o.side == side && o.productId == productId
  {
    Order(None, productId, side, price, size, LimitOrder, false)
  }

  /** The body of a cancel request: only the order id and its product id. */
  datatype CancelRequest = CancelRequest(id: Option<int>, productId: int)

  /** `cancel_order_format`: keeps exactly the id and the product id. */
  function CancelOrderFormat(o: Order): (c: CancelRequest)
    ensures c.id == o.id && c.productId == o.productId
  {
    CancelRequest(o.id, o.productId)
  }
}
