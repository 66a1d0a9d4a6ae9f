/** The pure decisions of the unhedged market maker: the average price of
    squaring off a size against a book, the symmetric ladder around the spot
    price, and the automatic margin top-up when the liquidation price comes
    too close to the mark price. */
module Unhedged {
  import opened Wrappers
  import opened Orders
  import opened Seqs
  import opened RealArith
  import opened PositionRecords
  import opened Margin
  import opened DeltaUtility
  import PriceRounding

  /** The size of the levels, in order. */
  function Filled(ls: seq<Level>): real
  {
    if |ls| == 0 then 0.0 else ls[0].size + Filled(ls[1..])
  }

  /** The price paid over the levels: each price times its size. */
  function Paid(ls: seq<Level>): real
  {
    if |ls| == 0 then 0.0 else ls[0].price * ls[0].size + Paid(ls[1..])
  }

  /** The fills of `get_impact_squareoff`: each level of the book in turn
      gives the smaller of what is left and its size, and the walk stops once
      nothing is left. */
  function Fills(size: real, book: seq<Level>): seq<Level>
    decreases |book|
  {
    if |book| == 0 then []
    else
      var f := RMin(size, book[0].size);
      [Level(book[0].price, f)] + (if size - f == 0.0 then [] else Fills(size - f, book[1..]))
  }

  /** `get_impact_squareoff`: the size-weighted average price of the fills.
      Nothing filled means a division by zero, which raises (`None`). */
  function ImpactSquareoff(size: real, book: seq<Level>): Option<real>
  {
    Average(Fills(size, book))
  }

  /** The size-weighted average price of some levels; `None` when they hold
      nothing. */
  function Average(ls: seq<Level>): Option<real>
  {
    if Filled(ls) == 0.0 then None else Some(Paid(ls) / Filled(ls))
  }

  predicate NonNegativeLevels(ls: seq<Level>)
  {
    forall k :: 0 <= k < |ls| ==> ls[k].size >= 0.0
  }

  /** The fills take the head levels in order, at their prices, none more
      than its level holds. */
  lemma {:induction false} FillsFromBook(size: real, book: seq<Level>)
    requires size >= 0.0 && NonNegativeLevels(book)
    ensures var fills := Fills(size, book);
      && |fills| <= |book|
      && (forall k :: 0 <= k < |fills| ==> fills[k].price == book[k].price && 0.0 <= fills[k].size <= book[k].size)
    decreases |book|
  {
    if |book| > 0 {
      var f := RMin(size, book[0].size);
      var fills := Fills(size, book);
      if size - f != 0.0 {
        var rest := Fills(size - f, book[1..]);
        FillsFromBook(size - f, book[1..]);
        assert fills == [Level(book[0].price, f)] + rest;
        forall k | 0 <= k < |fills|
          ensures fills[k].price == book[k].price && 0.0 <= fills[k].size <= book[k].size
        {
          if k > 0 {
            assert fills[k] == rest[k - 1];
          }
        }
      }
    }
  }

  /** Against a book of non-negative sizes, the fills add up to exactly the
      asked size or the whole book, whichever is smaller. */
  lemma {:induction false} FillsTotal(size: real, book: seq<Level>)
    requires size >= 0.0 && NonNegativeLevels(book)
    ensures Filled(Fills(size, book)) == RMin(size, Filled(book))
    decreases |book|
  {
    if |book| > 0 {
      var f := RMin(size, book[0].size);
      var fills := Fills(size, book);
      var w := Filled(book[1..]);
      BookNonNegative(book[1..]);
      assert Filled(book) == book[0].size + w;
      if size - f == 0.0 {
        assert fills == [Level(book[0].price, f)];
        assert Filled(fills) == f + Filled([]);
      } else {
        var rest := Fills(size - f, book[1..]);
        FillsTotal(size - f, book[1..]);
        assert fills == [Level(book[0].price, f)] + rest;
        assert fills[1..] == rest;
        assert Filled(fills) == f + Filled(rest);
        assert f == book[0].size;
        assert Filled(rest) == RMin(size - f, w);
      }
    }
  }

  /** The size of a book of non-negative levels is non-negative. */
  lemma {:induction false} BookNonNegative(ls: seq<Level>)
    requires NonNegativeLevels(ls)
    ensures Filled(ls) >= 0.0
    decreases |ls|
  {
    if |ls| > 0 {
      BookNonNegative(ls[1..]);
    }
  }

  /** With non-negative sizes and every price at least `lo`, the price paid
      is at least `lo` times the size. */
  lemma {:induction false} PaidAtLeast(ls: seq<Level>, lo: real)
    requires NonNegativeLevels(ls)
    requires forall k :: 0 <= k < |ls| ==> lo <= ls[k].price
    ensures lo * Filled(ls) <= Paid(ls)
    decreases |ls|
  {
    if |ls| > 0 {
      var x, rest := ls[0], ls[1..];
      PaidAtLeast(rest, lo);
      var head := x.price * x.size;
      if x.size > 0.0 {
        MulLe(x.size, lo, x.price);
      }
      assert lo * x.size <= head;
      var w, p := Filled(rest), Paid(rest);
      assert lo * w <= p;
      assert lo * Filled(ls) == lo * x.size + lo * w;
      assert Paid(ls) == head + p;
    }
  }

  /** With non-negative sizes and every price at most `hi`, the price paid
      is at most `hi` times the size. */
  lemma {:induction false} PaidAtMost(ls: seq<Level>, hi: real)
    requires NonNegativeLevels(ls)
    requires forall k :: 0 <= k < |ls| ==> ls[k].price <= hi
    ensures Paid(ls) <= hi * Filled(ls)
    decreases |ls|
  {
    if |ls| > 0 {
      var x, rest := ls[0], ls[1..];
      PaidAtMost(rest, hi);
      var head := x.price * x.size;
      if x.size > 0.0 {
        MulLe(x.size, x.price, hi);
      }
      assert head <= hi * x.size;
      var w, p := Filled(rest), Paid(rest);
      assert p <= hi * w;
      assert hi * Filled(ls) == hi * x.size + hi * w;
      assert Paid(ls) == head + p;
    }
  }

  /** The square-off price is defined iff something fills: the size asked
      and the book are both nonempty. */
  lemma ImpactSquareoffDefined(size: real, book: seq<Level>)
    requires size >= 0.0 && NonNegativeLevels(book)
    ensures ImpactSquareoff(size, book).None? <==> size == 0.0 || Filled(book) == 0.0
  {
    FillsTotal(size, book);
    BookNonNegative(book);
  }

  predicate PricesWithin(ls: seq<Level>, lo: real, hi: real)
  {
    forall k :: 0 <= k < |ls| ==> lo <= ls[k].price <= hi
  }

  /** The average of levels of non-negative size lies between the lowest
      and the highest of their prices. */
  lemma AverageBetween(ls: seq<Level>, lo: real, hi: real)
    requires NonNegativeLevels(ls)
    requires PricesWithin(ls, lo, hi)
    ensures Average(ls).Some? ==> lo <= Average(ls).value <= hi
  {
    if Filled(ls) != 0.0 {
      BookNonNegative(ls);
      PaidAtLeast(ls, lo);
      PaidAtMost(ls, hi);
      DivBetween(Paid(ls), Filled(ls), lo, hi);
    }
  }

  /** The square-off price lies between the lowest and the highest price of
      the levels it consumed. */
  lemma ImpactSquareoffBetween(size: real, book: seq<Level>, lo: real, hi: real)
    requires size >= 0.0 && NonNegativeLevels(book)
    ensures ImpactSquareoff(size, book).Some? && PricesWithin(Fills(size, book), lo, hi) ==>
      lo <= ImpactSquareoff(size, book).value <= hi
  {
    var fills := Fills(size, book);
    if PricesWithin(fills, lo, hi) {
      FillsFromBook(size, book);
      assert NonNegativeLevels(fills);
      AverageBetween(fills, lo, hi);
      assert ImpactSquareoff(size, book) == Average(fills);
    }
  }

  /** `generate_orders`: `numLevels` bids at the spot price less 1, 2, ...
      ticks and as many asks at the spot price plus 1, 2, ... ticks. The sizes
      are the `randint(min_level_size, max_level_size)` draws, given here in
      the order they are made for each side. The update flag is always set. */
  function GenerateOrders(spot: real, tick: real, numLevels: int, buyDraws: seq<int>, sellDraws: seq<int>)
    : (bool, seq<Level>, seq<Level>)
    requires |buyDraws| >= numLevels && |sellDraws| >= numLevels
  {
    var n := Max(numLevels, 0);
    (true,
     seq(n, k requires 0 <= k < n => Level(spot - (k + 1) as real * tick, buyDraws[k] as real)),
     seq(n, k requires 0 <= k < n => Level(spot + (k + 1) as real * tick, sellDraws[k] as real)))
  }

  /** With a positive tick the ladder has `numLevels` levels a side, bids
      strictly falling, asks strictly rising, every bid below every ask, each
      bid and ask mirrored around the spot price, and every size within the
      bounds the draws respect. */
  lemma GenerateOrdersMeaning(spot: real, tick: real, numLevels: int, buyDraws: seq<int>, sellDraws: seq<int>,
                              minSize: int, maxSize: int)
    requires |buyDraws| >= numLevels && |sellDraws| >= numLevels
    requires tick > 0.0
    ensures var (update, buys, sells) := GenerateOrders(spot, tick, numLevels, buyDraws, sellDraws);
      && update
      && |buys| == |sells| == Max(numLevels, 0)
      && (forall i, j :: 0 <= i < j < |buys| ==> buys[j].price < buys[i].price)
      && (forall i, j :: 0 <= i < j < |sells| ==> sells[i].price < sells[j].price)
      && (forall i, j :: 0 <= i < |buys| && 0 <= j < |sells| ==> buys[i].price < spot < sells[j].price)
      && (forall k :: 0 <= k < |buys| ==> buys[k].price + sells[k].price == 2.0 * spot)
      && ((forall k :: 0 <= k < |buyDraws| ==> minSize <= buyDraws[k] <= maxSize) ==>
            forall k :: 0 <= k < |buys| ==> minSize as real <= buys[k].size <= maxSize as real)
      && ((forall k :: 0 <= k < |sellDraws| ==> minSize <= sellDraws[k] <= maxSize) ==>
            forall k :: 0 <= k < |sells| ==> minSize as real <= sells[k].size <= maxSize as real)
  {
    var (update, buys, sells) := GenerateOrders(spot, tick, numLevels, buyDraws, sellDraws);
    forall i, j | 0 <= i < j < |buys|
      ensures buys[j].price < buys[i].price && sells[i].price < sells[j].price
    {
      MulLt(tick, (i + 1) as real, (j + 1) as real);
      assert (i + 1) as real * tick < (j + 1) as real * tick;
    }
    forall k | 0 <= k < |buys|
      ensures buys[k].price < spot < sells[k].price
    {
      MulLt(tick, 0.0, (k + 1) as real);
    }
  }

  /** A position as `delta_position` reports it: the size in the underlying
      (a real number), the prices and the margin as fetched. */
  datatype DeltaPositionRecord = DeltaPositionRecord(size: real, entryPrice: Option<real>,
                                                     liquidationPrice: Option<real>, margin: real)

  /** The size `delta_position` reports for `n` contracts: a nonzero size is
      multiplied by the contract size, and the result rounded to the nearest
      whole number of contract sizes. For a positive contract size the
      rounding never moves it, and it is zero only for zero contracts. */
  function ReportedSize(n: int, contractSize: real): (s: real)
    requires contractSize != 0.0
    ensures contractSize > 0.0 ==> s == n as real * contractSize
    ensures contractSize > 0.0 ==> (s == 0.0 <==> n == 0)
  {
    var scaled := if n != 0 then n as real * contractSize else 0.0;
    WholeContracts(n, contractSize);
    PriceRounding.RoundPriceByTickSize(scaled, contractSize, Nearest)
  }

  /** A whole number of contracts times the contract size is on the
      contract-size grid, and zero only for zero contracts. */
  lemma WholeContracts(n: int, contractSize: real)
    requires contractSize != 0.0
    ensures var scaled := if n != 0 then n as real * contractSize else 0.0;
      contractSize > 0.0 ==> PriceRounding.RoundPriceByTickSize(scaled, contractSize, Nearest) == n as real * contractSize
    ensures contractSize > 0.0 ==> (n as real * contractSize == 0.0 <==> n == 0)
  {
    if contractSize > 0.0 {
      var scaled := n as real * contractSize;
      assert scaled == contractSize * n as real;
      WholeTicks(scaled, n, contractSize);
      RemZeroIffMultiple(scaled, contractSize);
      if n > 0 {
        MulLt(contractSize, 0.0, n as real);
      } else if n < 0 {
        MulLt(contractSize, n as real, 0.0);
      }
    }
  }

  /** `delta_position`: the reported size with the prices and the margin as
      fetched. A zero contract size raises inside the rounding, and so does
      the notional of a nonzero inverse position entered at 0: `None`. */
  function DeltaPosition(p: PositionRecord, contractSize: real, inverse: bool): Option<DeltaPositionRecord>
  {
    if contractSize == 0.0 then None
    else
      var size := ReportedSize(p.size, contractSize);
      if inverse && size != 0.0 && p.entryPrice == Some(0.0) then None
      else Some(DeltaPositionRecord(size, p.entryPrice, p.liquidationPrice, p.margin))
  }

  /** For a positive contract size the reported size is the size in
      contracts times the contract size, and everything else is carried
      over; a zero contract size raises. */
  lemma DeltaPositionMeaning(p: PositionRecord, contractSize: real, inverse: bool)
    ensures contractSize == 0.0 ==> DeltaPosition(p, contractSize, inverse).None?
    ensures contractSize > 0.0 ==>
      DeltaPosition(p, contractSize, inverse) ==
        if inverse && p.size != 0 && p.entryPrice == Some(0.0) then None
        else Some(DeltaPositionRecord(p.size as real * contractSize, p.entryPrice, p.liquidationPrice, p.margin))
  {
    if contractSize > 0.0 {
      var size := ReportedSize(p.size, contractSize);
      assert size == p.size as real * contractSize;
      assert size != 0.0 <==> p.size != 0;
    }
  }

  /** The client's contract size, the contract value rounded to its own grid,
      is the contract value itself. */
  lemma ContractSizeIsContractValue(contractValue: real)
    requires contractValue > 0.0
    ensures PriceRounding.RoundPriceByTickSize(contractValue, contractValue, Nearest) == contractValue
  {
    WholeTicks(contractValue, 1, contractValue);
    RemZeroIffMultiple(contractValue, contractValue);
  }

  /** The liquidation price the top-up aims for: the threshold's distance
      below the mark price for a long position, above it for a short one. */
  function TargetLiquidation(size: real, mark: real, threshold: real): real
  {
    if size > 0.0 then mark * (1.0 - threshold / 100.0) else mark * (1.0 + threshold / 100.0)
  }

  /** The target sits on the safe side of the mark price, exactly the
      threshold away (in percent of the mark price). */
  lemma TargetLiquidationMeaning(size: real, mark: real, threshold: real)
    requires mark > 0.0 && threshold > 0.0
    ensures size > 0.0 ==> TargetLiquidation(size, mark, threshold) < mark
    ensures size <= 0.0 ==> TargetLiquidation(size, mark, threshold) > mark
    ensures Abs(TargetLiquidation(size, mark, threshold) - mark) * 100.0 / mark == threshold
  {
    var t := TargetLiquidation(size, mark, threshold);
    assert t - mark == (if size > 0.0 then -1.0 else 1.0) * (mark * threshold / 100.0);
    MulLt(mark, 0.0, threshold / 100.0);
    assert mark * threshold / 100.0 == mark * (threshold / 100.0);
    assert Abs(t - mark) == mark * (threshold / 100.0);
    assert Abs(t - mark) * 100.0 == mark * threshold;
  }

  /** What `check_for_position_auto_topup` does: nothing, add margin, log
      that the funds do not suffice, or raise (a missing liquidation or entry
      price, a zero mark price, an undefined inverse margin, or a
      `delta_position` that raises). */
  datatype TopUp = NoTopUp | AddMargin(amount: real) | Unaffordable(needed: real) | TopUpRaises

  /** The decision as written: the size `delta_position` reports, already
      multiplied by the contract size, is multiplied by the contract value
      once more before the margin is computed. `funds` is the balance the
      client would report. */
  function AutoTopUp(p: PositionRecord, mark: real, threshold: real, contractSize: real, contractValue: real,
                     mm: real, inverse: bool, funds: real): TopUp
  {
    match DeltaPosition(p, contractSize, inverse)
    case None => TopUpRaises
    case Some(d) => TopUpDecision(d, d.size * contractValue, mark, threshold, mm, inverse, funds)
  }

  /** The decision with the size scaled once: the margin is computed for the
      size `delta_position` reports, which is already in the underlying. */
  function AutoTopUpScaledOnce(p: PositionRecord, mark: real, threshold: real, contractSize: real,
                               mm: real, inverse: bool, funds: real): TopUp
  {
    match DeltaPosition(p, contractSize, inverse)
    case None => TopUpRaises
    case Some(d) => TopUpDecision(d, d.size, mark, threshold, mm, inverse, funds)
  }

  /** The decision for a reported position whose size, as passed to the
      margin helper, is `marginSize`. */
  function TopUpDecision(d: DeltaPositionRecord, marginSize: real, mark: real, threshold: real, mm: real,
                         inverse: bool, funds: real): TopUp
  {
    if d.size == 0.0 then NoTopUp
    else if d.liquidationPrice.None? || mark == 0.0 then TopUpRaises
    else if !(Abs(d.liquidationPrice.value - mark) * 100.0 / mark < threshold) then NoTopUp
    else if d.entryPrice.None? then TopUpRaises
    else
      Settle(MarginFromLiquidationPrice(marginSize, d.entryPrice.value,
                                        TargetLiquidation(d.size, mark, threshold), mm, inverse),
             d.margin, funds)
  }

  /** The last step: the margin the target needs (none when undefined)
      against the margin posted and the funds available. */
  function Settle(needed: Option<real>, posted: real, funds: real): TopUp
  {
    match needed
    case None => TopUpRaises
    case Some(margin) =>
      var delta := margin - posted;
      if delta <= 0.0 then NoTopUp
      else if funds > delta then AddMargin(delta)
      else Unaffordable(delta)
  }

  /** Margin is added exactly when the target needs more than is posted and
      the funds exceed the difference, and the amount closes the gap. */
  lemma SettleMeaning(needed: Option<real>, posted: real, funds: real)
    ensures var r := Settle(needed, posted, funds);
      && (r.AddMargin? <==> needed.Some? && 0.0 < needed.value - posted < funds)
      && (r.AddMargin? ==> needed == Some(posted + r.amount))
      && (r.Unaffordable? <==> needed.Some? && 0.0 < needed.value - posted && funds <= needed.value - posted)
      && (r.Unaffordable? ==> r.needed == needed.value - posted)
      && (r.TopUpRaises? <==> needed.None?)
  {
  }

  /** A flat position (the default record included) is never topped up, and
      a zero contract size always raises. */
  lemma AutoTopUpFlat(p: PositionRecord, mark: real, threshold: real, contractSize: real, contractValue: real,
                      mm: real, inverse: bool, funds: real)
    ensures contractSize > 0.0 && p.size == 0 ==>
      AutoTopUp(p, mark, threshold, contractSize, contractValue, mm, inverse, funds) == NoTopUp
    ensures contractSize > 0.0 ==>
      AutoTopUp(GetPosition(None, None, None), mark, threshold, contractSize, contractValue, mm, inverse, funds) == NoTopUp
    ensures contractSize == 0.0 ==>
      AutoTopUp(p, mark, threshold, contractSize, contractValue, mm, inverse, funds) == TopUpRaises
  {
    DeltaPositionMeaning(p, contractSize, inverse);
    DeltaPositionMeaning(GetPosition(None, None, None), contractSize, inverse);
  }

  /** Margin is added only for a position whose liquidation price is closer
      to the mark price than the threshold, and only a positive amount that
      the funds exceed. */
  lemma TopUpAddsWhenNear(d: DeltaPositionRecord, marginSize: real, mark: real, threshold: real, mm: real,
                          inverse: bool, funds: real)
    ensures var r := TopUpDecision(d, marginSize, mark, threshold, mm, inverse, funds);
      r.AddMargin? ==>
        && d.size != 0.0 && d.liquidationPrice.Some? && d.entryPrice.Some? && mark != 0.0
        && Abs(d.liquidationPrice.value - mark) * 100.0 / mark < threshold
        && 0.0 < r.amount < funds
  {
  }

  /** The amount added is exactly what brings the posted margin to the margin
      that moves the liquidation price to the target. */
  lemma TopUpAddsToTarget(d: DeltaPositionRecord, marginSize: real, mark: real, threshold: real, mm: real,
                          inverse: bool, funds: real)
    ensures var r := TopUpDecision(d, marginSize, mark, threshold, mm, inverse, funds);
      r.AddMargin? ==>
        && d.entryPrice.Some?
        && MarginFromLiquidationPrice(marginSize, d.entryPrice.value, TargetLiquidation(d.size, mark, threshold), mm, inverse)
           == Some(d.margin + r.amount)
  {
    var r := TopUpDecision(d, marginSize, mark, threshold, mm, inverse, funds);
    if r.AddMargin? {
      var m := MarginFromLiquidationPrice(marginSize, d.entryPrice.value, TargetLiquidation(d.size, mark, threshold), mm, inverse);
      assert r == Settle(m, d.margin, funds);
      SettleMeaning(m, d.margin, funds);
    }
  }

  /** A shortfall is logged only for a positive amount the funds do not
      exceed; the check raises only for an open position missing a price,
      with a zero mark price, or on an inverse contract. */
  lemma TopUpFails(d: DeltaPositionRecord, marginSize: real, mark: real, threshold: real, mm: real,
                   inverse: bool, funds: real)
    ensures var r := TopUpDecision(d, marginSize, mark, threshold, mm, inverse, funds);
      r.Unaffordable? ==> 0.0 < r.needed && funds <= r.needed
    ensures var r := TopUpDecision(d, marginSize, mark, threshold, mm, inverse, funds);
      r.TopUpRaises? ==> d.size != 0.0 && (d.liquidationPrice.None? || mark == 0.0 || d.entryPrice.None? || inverse)
  {
  }

  /** The target depends only on the side of the position, which scaling by
      a positive contract size keeps. */
  lemma TargetLiquidationScaled(size: int, contractSize: real, mark: real, threshold: real)
    requires contractSize > 0.0
    ensures TargetLiquidation(size as real * contractSize, mark, threshold) == TargetLiquidation(size as real, mark, threshold)
  {
    if size > 0 {
      MulLt(contractSize, 0.0, size as real);
    } else {
      MulLe(contractSize, size as real, 0.0);
    }
  }

  /** Scaled once, the top-up adds margin only to an open position near
      liquidation, and exactly what brings the posted margin to the margin of
      the size in contracts times the contract size at the target. */
  lemma AutoTopUpScaledOnceMeaning(p: PositionRecord, mark: real, threshold: real, contractSize: real,
                                   mm: real, inverse: bool, funds: real)
    ensures var r := AutoTopUpScaledOnce(p, mark, threshold, contractSize, mm, inverse, funds);
      contractSize > 0.0 && r.AddMargin? ==>
        && p.size != 0 && p.entryPrice.Some? && p.liquidationPrice.Some? && mark != 0.0
        && Abs(p.liquidationPrice.value - mark) * 100.0 / mark < threshold
        && 0.0 < r.amount < funds
        && MarginFromLiquidationPrice(p.size as real * contractSize, p.entryPrice.value,
                                      TargetLiquidation(p.size as real, mark, threshold), mm, inverse)
           == Some(p.margin + r.amount)
    ensures contractSize == 0.0 ==> AutoTopUpScaledOnce(p, mark, threshold, contractSize, mm, inverse, funds) == TopUpRaises
  {
    var r := AutoTopUpScaledOnce(p, mark, threshold, contractSize, mm, inverse, funds);
    if contractSize > 0.0 && r.AddMargin? {
      DeltaPositionMeaning(p, contractSize, inverse);
      var d := DeltaPosition(p, contractSize, inverse).value;
      TopUpAddsWhenNear(d, d.size, mark, threshold, mm, inverse, funds);
      TopUpAddsToTarget(d, d.size, mark, threshold, mm, inverse, funds);
      TargetLiquidationScaled(p.size, contractSize, mark, threshold);
    }
  }

  /** A long of 1000 contracts of 0.001 coin, entered at 50000 with 100 posted
      and liquidation at 49900, mark 50000, threshold 1%, maintenance 0.5%,
      1000 in funds. The margin that puts liquidation at 49500 is 750 for the
      1 coin held, so 650 should be added; as written the margin is computed
      for 0.001 coin (0.75), below what is posted, and nothing is added. */
  lemma DoubleScalingExample()
    ensures var p := PositionRecord(1000, Some(50000.0), Some(49900.0), 100.0);
      && AutoTopUp(p, 50000.0, 1.0, 0.001, 0.001, 0.5, false, 1000.0) == NoTopUp
      && AutoTopUpScaledOnce(p, 50000.0, 1.0, 0.001, 0.5, false, 1000.0) == AddMargin(650.0)
  {
    var p := PositionRecord(1000, Some(50000.0), Some(49900.0), 100.0);
    DeltaPositionMeaning(p, 0.001, false);
    var d := DeltaPositionRecord(1.0, Some(50000.0), Some(49900.0), 100.0);
    assert DeltaPosition(p, 0.001, false) == Some(d);
    assert Abs(49900.0 - 50000.0) * 100.0 / 50000.0 < 1.0;
    assert TargetLiquidation(1.0, 50000.0, 1.0) == 49500.0;
    LinearMarginMeaning(0.001, 50000.0, 49500.0, 0.5);
    LinearMarginMeaning(1.0, 50000.0, 49500.0, 0.5);
  }
}
