/** The general-purpose tick rounding of the shared utility module. Unlike
    `DeltaUtility.RoundByTickSize` it has no early return for exact
    multiples: its `if remainder == 0` branch assigns the number to itself. */
module PriceRounding {
  import opened Orders
  import opened DeltaUtility

  /** `round_price_by_tick_size` up to, not including, its decimal-places step. */
  function RoundPriceByTickSize(number: real, tick: real, mode: Mode): real
    requires tick != 0.0
  {
    var remainder := Rem(number, tick);
    if mode == Ceil || (mode == Nearest && remainder >= tick / 2.0) then number - remainder + tick
    else number - remainder
  }

  /** Before the decimal-places step the result is always a whole number of ticks. */
  lemma RoundPriceOnGrid(number: real, tick: real, mode: Mode)
    requires tick != 0.0
    ensures IsMultipleOf(RoundPriceByTickSize(number, tick, mode), tick)
  {
    LessRemIsMultiple(number, tick);
  }

  /** `Floor` drops the remainder: a tick multiple not above a non-negative number. */
  lemma RoundPriceFloorBounds(number: real, tick: real)
    requires tick > 0.0 && number >= 0.0
    ensures var r := RoundPriceByTickSize(number, tick, Floor);
      IsMultipleOf(r, tick) && r <= number && r > number - tick
  {
    LessRemIsMultiple(number, tick);
  }

  /** With no mode the result is the nearest tick multiple (halves go up),
      and an exact multiple is left as it is. */
  lemma RoundPriceNearest(number: real, tick: real)
    requires tick > 0.0 && number >= 0.0
    ensures var r := RoundPriceByTickSize(number, tick, Nearest);
      && IsMultipleOf(r, tick)
      && Abs(r - number) <= tick / 2.0
      && (r > number ==> r - number <= tick / 2.0)
      && (r < number ==> number - r < tick / 2.0)
      && (IsMultipleOf(number, tick) ==> r == number)
  {
    LessRemIsMultiple(number, tick);
    RemZeroIffMultiple(number, tick);
  }

  /** As written, `Ceil` on an exact multiple moves a whole tick up. */
  lemma CeilOnExactMultipleAddsTick(number: real, tick: real)
    requires tick != 0.0
    requires IsMultipleOf(number, tick)
    ensures RoundPriceByTickSize(number, tick, Ceil) == number + tick
  {
    RemZeroIffMultiple(number, tick);
  }

  /** The two rounding helpers agree everywhere except `Ceil` on an exact multiple. */
  lemma AgreesWithVenueRounding(number: real, tick: real, mode: Mode)
    requires tick > 0.0
    ensures RoundPriceByTickSize(number, tick, mode) == RoundByTickSize(number, tick, mode)
            <==> !(mode == Ceil && IsMultipleOf(number, tick))
  {
    RemZeroIffMultiple(number, tick);
  }

  /** A concrete input: 10 with tick 0.5 and `Ceil` becomes 10.5 here, 10 in the venue helper. */
  lemma CeilOnExactMultipleExample()
    ensures RoundPriceByTickSize(10.0, 0.5, Ceil) == 10.5
    ensures RoundByTickSize(10.0, 0.5, Ceil) == 10.0
  {
    WholeTicks(10.0, 20, 0.5);
    CeilOnExactMultipleAddsTick(10.0, 0.5);
    RoundByTickSizeOnGrid(10.0, 0.5, Ceil);
  }
}
