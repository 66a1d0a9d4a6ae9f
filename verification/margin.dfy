/** The margin helpers: the margin that puts a position's liquidation at a
    given price, for linear and inverse contracts, and the funding-rate
    dampener with its inverse. */
module Margin {
  import opened Wrappers
  import opened Orders
  import opened RealArith

  /** `calculateMarginFromLiquidationPrice`. The inverse branch divides three
      times (by the adjusted entry, by the entry and by the bankruptcy price);
      a zero divisor raises, which is `None` here. */
  function MarginFromLiquidationPrice(size: real, entry: real, liq: real, mm: real, inverse: bool): Option<real>
  {
    if !inverse then
      var bankruptcy := liq - Sign(size) * entry * mm / 100.0;
      Some(-1.0 * size * (bankruptcy - entry))
    else
      var adjusted := entry + liq * Sign(size) * mm / 100.0;
      if adjusted == 0.0 then None
      else
        var bankruptcy := liq * entry / adjusted;
        if entry == 0.0 || bankruptcy == 0.0 then None
        else Some(-1.0 * size * (1.0 / entry - 1.0 / bankruptcy))
  }

  /** A linear position needs the maintenance margin on its entry notional
      plus what it loses between entry and liquidation. */
  lemma LinearMarginMeaning(size: real, entry: real, liq: real, mm: real)
    ensures MarginFromLiquidationPrice(size, entry, liq, mm, false)
         == Some(Abs(size) * entry * mm / 100.0 + size * (entry - liq))
  {
    var k := entry * mm / 100.0;
    var b := liq - Sign(size) * entry * mm / 100.0;
    assert MarginFromLiquidationPrice(size, entry, liq, mm, false).Some?;
    assert MarginFromLiquidationPrice(size, entry, liq, mm, false).value == -1.0 * size * (b - entry);
    assert b == liq - Sign(size) * k;
    assert Sign(size) * entry * mm / 100.0 == Sign(size) * k;
    assert -1.0 * size * (liq - Sign(size) * k - entry) == size * Sign(size) * k + size * (entry - liq);
    assert size * Sign(size) == Abs(size);
    assert size * Sign(size) * k == Abs(size) * k;
    assert Abs(size) * entry * mm / 100.0 == Abs(size) * k;
    assert -1.0 * size * (b - entry) == -1.0 * size * (liq - Sign(size) * k - entry);
    assert MarginFromLiquidationPrice(size, entry, liq, mm, false).value == Abs(size) * entry * mm / 100.0 + size * (entry - liq);
  }

  /** An inverse position is computable iff the entry, the liquidation price
      and the adjusted entry are nonzero; it then needs the maintenance
      margin on its entry value plus what it loses, in the coin, between
      entry and liquidation. */
  lemma InverseMarginMeaning(size: real, entry: real, liq: real, mm: real)
    ensures MarginFromLiquidationPrice(size, entry, liq, mm, true).None? <==>
      entry == 0.0 || liq == 0.0 || entry + liq * Sign(size) * mm / 100.0 == 0.0
    ensures MarginFromLiquidationPrice(size, entry, liq, mm, true).Some? ==>
      MarginFromLiquidationPrice(size, entry, liq, mm, true).value
        == Abs(size) * mm / (100.0 * entry) + size * (1.0 / liq - 1.0 / entry)
  {
    var s := Sign(size);
    var adjusted := entry + liq * s * mm / 100.0;
    if adjusted != 0.0 && entry != 0.0 {
      var bankruptcy := liq * entry / adjusted;
      assert bankruptcy * adjusted == liq * entry;
      if liq != 0.0 {
        assert bankruptcy != 0.0;
        assert 1.0 / bankruptcy == adjusted / (liq * entry);
        assert adjusted / (liq * entry) == 1.0 / liq + s * mm / (100.0 * entry);
        assert s * size == Abs(size);
      } else {
        assert bankruptcy == 0.0;
      }
    }
  }

  /** A flat position needs no margin (when the inverse formula is defined). */
  lemma FlatNeedsNoMargin(entry: real, liq: real, mm: real, inverse: bool)
    ensures MarginFromLiquidationPrice(0.0, entry, liq, mm, inverse) == Some(0.0)
      || (inverse && (entry == 0.0 || liq == 0.0))
  {
  }

  /** `funding_dampener`: the premium with a dead band of 0.05 around 0. */
  function FundingDampener(premium: real): real
  {
    RMax(0.05, premium) + RMin(-0.05, premium)
  }

  /** The dampener shifts a premium outside the band towards 0 by 0.05 and
      maps the band to 0; it is odd and never increases the magnitude. */
  lemma FundingDampenerMeaning(p: real)
    ensures p >= 0.05 ==> FundingDampener(p) == p - 0.05
    ensures p <= -0.05 ==> FundingDampener(p) == p + 0.05
    ensures -0.05 < p < 0.05 ==> FundingDampener(p) == 0.0
    ensures FundingDampener(-p) == -FundingDampener(p)
    ensures Abs(FundingDampener(p)) == RMax(Abs(p) - 0.05, 0.0)
    ensures Abs(FundingDampener(p)) <= Abs(p)
  {
  }

  /** `calculatePremiumFromFunding`: a nonzero funding rate moved 0.05 away
      from 0. */
  function PremiumFromFunding(funding: real): real
  {
    if funding > 0.0 then funding + 0.05
    else if funding < 0.0 then funding - 0.05
    else 0.0
  }

  /** The premium has the funding's sign and 0.05 more magnitude, and the
      dampener turns it back into the funding rate. */
  lemma PremiumFromFundingMeaning(funding: real)
    ensures Sign(PremiumFromFunding(funding)) == Sign(funding)
    ensures funding != 0.0 ==> Abs(PremiumFromFunding(funding)) == Abs(funding) + 0.05
    ensures FundingDampener(PremiumFromFunding(funding)) == funding
  {
  }
}
