/** `converge_orders` of the supervisor: split the open orders by side, sort
    them best price first, pop the ones beyond the optional price bounds,
    diff each side against its wanted ladder, pick the edit order from the
    market trend, pair deletes with creates into edits, and submit cancels,
    edits and creates in that order. */
module Converge {
  import opened Wrappers
  import opened Orders
  import opened Seqs
  import opened PriceSort
  import opened LadderDiff
  import opened EditAggregation

  /** An open order as the diff sees it: the unfilled size stands for the size. */
  function AsLive(o: OpenOrder): Order
  {
    Order(Some(o.id), o.productId, o.side, o.price, o.unfilledSize, LimitOrder, o.postOnly)
  }

  function LiveOrders(opens: seq<OpenOrder>): (r: seq<Order>)
    ensures |r| == |opens|
    ensures forall k :: 0 <= k < |r| ==> r[k] == AsLive(opens[k])
  {
    seq(|opens|, k requires 0 <= k < |opens| => AsLive(opens[k]))
  }

  /** One flag per order: is it an ask? */
  function AskFlags(os: seq<Order>): (f: seq<bool>)
    ensures |f| == |os|
    ensures forall k :: 0 <= k < |f| ==> (f[k] <==> os[k].side == Sell)
  {
    seq(|os|, k requires 0 <= k < |os| => os[k].side == Sell)
  }

  /** The orders of one side, in their listed order. */
  function OfSide(side: Side, os: seq<Order>): seq<Order>
  {
    Pick(os, AskFlags(os), side == Sell)
  }

  /** The side filter keeps exactly the orders of that side, in order, and
      the two sides together are the whole list. */
  lemma OfSideMeaning(side: Side, os: seq<Order>)
    ensures forall x :: x in OfSide(side, os) <==> x in os && x.side == side
    ensures IsSubsequence(OfSide(side, os), os)
    ensures multiset(OfSide(Sell, os)) + multiset(OfSide(Buy, os)) == multiset(os)
  {
    var f := AskFlags(os);
    PickMembers(os, f, side == Sell);
    PickKeepsOrder(os, f, side == Sell);
    PickSplits(os, f);
  }

  /** Python truthiness of an optional `Decimal` bound: `None` and zero are off. */
  predicate Active(bound: Option<real>)
  {
    bound.Some? && bound.value != 0.0
  }

  /** A price beyond the bound: a bid above `max_bid`, an ask below `min_ask`. */
  predicate Beyond(side: Side, bound: real, price: real)
  {
    match side
    case Buy => price > bound
    case Sell => price < bound
  }

  /** The `pop(0)` loop: the number of live orders taken from position `i`
      of the sorted ladder, for as long as they lie beyond an active bound. */
  function PopCount(side: Side, bound: Option<real>, live: seq<Order>, i: nat): (n: nat)
    requires i <= |live|
    ensures i <= n <= |live|
    ensures !Active(bound) ==> n == i
    ensures Active(bound) ==> forall k :: i <= k < n ==> Beyond(side, bound.value, live[k].price)
    ensures Active(bound) && n < |live| ==> !Beyond(side, bound.value, live[n].price)
    decreases |live| - i
  {
    if !Active(bound) || i == |live| || !Beyond(side, bound.value, live[i].price) then i
    else PopCount(side, bound, live, i + 1)
  }

  /** On a ladder sorted best price first, the popped prefix holds every live
      order beyond the bound: nothing beyond it survives into the diff. */
  lemma PopTakesAllBeyond(side: Side, bound: Option<real>, live: seq<Order>)
    requires PriceOrdered(side, live)
    requires Active(bound)
    ensures var n := PopCount(side, bound, live, 0);
      forall k :: n <= k < |live| ==> !Beyond(side, bound.value, live[k].price)
  {
    var n := PopCount(side, bound, live, 0);
    forall k | n < k < |live|
      ensures !Beyond(side, bound.value, live[k].price)
    {
      assert NoWorse(side, live[n].price, live[k].price);
    }
  }

  /** One flag per wanted level: is it within the bound? */
  function WithinFlags(side: Side, bound: real, wanted: seq<Order>): (f: seq<bool>)
    ensures |f| == |wanted|
    ensures forall k :: 0 <= k < |f| ==> (f[k] <==> !Beyond(side, bound, wanted[k].price))
  {
    seq(|wanted|, k requires 0 <= k < |wanted| => !Beyond(side, bound, wanted[k].price))
  }

  /** The wanted levels kept under an active bound. */
  function Within(side: Side, bound: Option<real>, wanted: seq<Order>): seq<Order>
  {
    if Active(bound) then Pick(wanted, WithinFlags(side, bound.value, wanted), true) else wanted
  }

  /** The bound filter keeps, in order, exactly the wanted levels that are
      not beyond an active bound. */
  lemma WithinMeaning(side: Side, bound: Option<real>, wanted: seq<Order>)
    ensures IsSubsequence(Within(side, bound, wanted), wanted)
    ensures forall x :: x in Within(side, bound, wanted) <==>
      x in wanted && (Active(bound) ==> !Beyond(side, bound.value, x.price))
  {
    if Active(bound) {
      var f := WithinFlags(side, bound.value, wanted);
      PickKeepsOrder(wanted, f, true);
      PickMembers(wanted, f, true);
    } else {
      SubsequenceOfSelf(wanted);
    }
  }

  /** The best price of a non-empty list: the lowest ask or the highest bid. */
  function BestPrice(side: Side, os: seq<Order>): real
    requires |os| > 0
  {
    if |os| == 1 then os[0].price
    else
      var rest := BestPrice(side, os[1..]);
      if NoWorse(side, os[0].price, rest) then os[0].price else rest
  }

  /** `min` of the asks' prices, `max` of the bids': one of the prices, and
      no worse than any of them. */
  lemma {:induction false} BestPriceIsBest(side: Side, os: seq<Order>) returns (i: nat)
    requires |os| > 0
    ensures i < |os| && os[i].price == BestPrice(side, os)
    ensures forall k :: 0 <= k < |os| ==> NoWorse(side, BestPrice(side, os), os[k].price)
    decreases |os|
  {
    if |os| == 1 {
      i := 0;
    } else {
      var tail := os[1..];
      var j := BestPriceIsBest(side, tail);
      var rest := BestPrice(side, tail);
      if NoWorse(side, os[0].price, rest) {
        i := 0;
      } else {
        i := j + 1;
      }
      forall k | 1 <= k < |os|
        ensures NoWorse(side, BestPrice(side, os), os[k].price)
      {
        assert os[k] == tail[k - 1];
      }
    }
  }

  /** `market_trend`: +1 when the best price of the new orders is above the
      best price of the ones they replace, -1 when below, 0 when equal. */
  function MarketTrend(side: Side, creates: seq<Order>, deletes: seq<Order>): (t: int)
    requires |creates| > 0 && |deletes| > 0
    ensures t == 1 || t == -1 || t == 0
  {
    var diff := BestPrice(side, creates) - BestPrice(side, deletes);
    if diff > 0.0 then 1 else if diff < 0.0 then -1 else 0
  }

  /** Some entry of `a` is priced above every entry of `b`. */
  predicate AboveAll(a: seq<Order>, b: seq<Order>)
  {
    exists i :: 0 <= i < |a| && forall k :: 0 <= k < |b| ==> a[i].price > b[k].price
  }

  /** Some entry of `a` is priced below every entry of `b`. */
  predicate BelowAll(a: seq<Order>, b: seq<Order>)
  {
    exists i :: 0 <= i < |a| && forall k :: 0 <= k < |b| ==> a[i].price < b[k].price
  }

  /** The market rose: some new bid is above every old one, or some old ask
      is below every new one. */
  predicate Rose(side: Side, creates: seq<Order>, deletes: seq<Order>)
  {
    match side
    case Buy => AboveAll(creates, deletes)
    case Sell => BelowAll(deletes, creates)
  }

  /** The market fell: some old bid is above every new one, or some new ask
      is below every old one. */
  predicate Fell(side: Side, creates: seq<Order>, deletes: seq<Order>)
  {
    match side
    case Buy => AboveAll(deletes, creates)
    case Sell => BelowAll(creates, deletes)
  }

  /** The highest bid of `a` beats that of `b` exactly when some bid of `a`
      is above all of `b`. */
  lemma BestBidAbove(a: seq<Order>, b: seq<Order>)
    requires |a| > 0 && |b| > 0
    ensures BestPrice(Buy, a) > BestPrice(Buy, b) <==> AboveAll(a, b)
  {
    var ba, bb := BestPrice(Buy, a), BestPrice(Buy, b);
    var ia := BestPriceIsBest(Buy, a);
    var ib := BestPriceIsBest(Buy, b);
    if AboveAll(a, b) {
      var i :| 0 <= i < |a| && forall k :: 0 <= k < |b| ==> a[i].price > b[k].price;
      assert a[i].price > b[ib].price;
      assert NoWorse(Buy, ba, a[i].price);
    }
    if ba > bb {
      assert forall k :: 0 <= k < |b| ==> NoWorse(Buy, bb, b[k].price);
      assert forall k :: 0 <= k < |b| ==> a[ia].price > b[k].price;
    }
  }

  /** The lowest ask of `a` beats that of `b` exactly when some ask of `a`
      is below all of `b`. */
  lemma BestAskBelow(a: seq<Order>, b: seq<Order>)
    requires |a| > 0 && |b| > 0
    ensures BestPrice(Sell, a) < BestPrice(Sell, b) <==> BelowAll(a, b)
  {
    var ba, bb := BestPrice(Sell, a), BestPrice(Sell, b);
    var ia := BestPriceIsBest(Sell, a);
    var ib := BestPriceIsBest(Sell, b);
    if BelowAll(a, b) {
      var i :| 0 <= i < |a| && forall k :: 0 <= k < |b| ==> a[i].price < b[k].price;
      assert a[i].price < b[ib].price;
      assert NoWorse(Sell, ba, a[i].price);
    }
    if ba < bb {
      assert forall k :: 0 <= k < |b| ==> NoWorse(Sell, bb, b[k].price);
      assert forall k :: 0 <= k < |b| ==> a[ia].price < b[k].price;
    }
  }

  /** The trend in terms of the two lists themselves. */
  lemma MarketTrendMeaning(side: Side, creates: seq<Order>, deletes: seq<Order>)
    requires |creates| > 0 && |deletes| > 0
    ensures MarketTrend(side, creates, deletes) == 1 <==> Rose(side, creates, deletes)
    ensures MarketTrend(side, creates, deletes) == -1 <==> Fell(side, creates, deletes)
  {
    match side
    case Buy =>
      BestBidAbove(creates, deletes);
      BestBidAbove(deletes, creates);
    case Sell =>
      BestAskBelow(creates, deletes);
      BestAskBelow(deletes, creates);
  }

  /** The trend is taken from the ask side when it both creates and deletes,
      else from the bid side when that does, else it is 0. */
  function TrendOf(sell: DiffResult, buy: DiffResult): int
  {
    if |sell.create| > 0 && |sell.delete| > 0 then MarketTrend(Sell, sell.create, sell.delete)
    else if |buy.create| > 0 && |buy.delete| > 0 then MarketTrend(Buy, buy.create, buy.delete)
    else 0
  }

  lemma DefinedMembers(a: seq<Order>, b: seq<Order>, inverse: bool)
    requires AllDefined(b, inverse)
    requires forall x :: x in a ==> x in b
    ensures AllDefined(a, inverse)
  {
    forall k | 0 <= k < |a|
      ensures OrderNotionalDefined(a[k], inverse)
    {
      assert a[k] in b;
    }
  }

  /** Comparable live orders have a defined notional on either kind of contract. */
  lemma ComparableDefined(a: seq<Order>, inverse: bool)
    requires AllComparable(Current, a)
    ensures AllDefined(a, inverse)
  {
    forall k | 0 <= k < |a|
      ensures OrderNotionalDefined(a[k], inverse)
    {
      assert Comparable(Current, a[k]);
    }
  }

  /** The live orders of one side: the open orders of that side with their
      unfilled size, in listed order. */
  function SideLive(side: Side, opens: seq<OpenOrder>): (r: seq<Order>)
    ensures AllComparable(Current, LiveOrders(opens)) ==> AllComparable(Current, r)
  {
    OfSideMeaning(side, LiveOrders(opens));
    KeepsComparable(Current, OfSide(side, LiveOrders(opens)), LiveOrders(opens));
    OfSide(side, LiveOrders(opens))
  }

  /** How many orders the `pop(0)` loop takes off the sorted ladder. */
  function Cut(side: Side, bound: Option<real>, live: seq<Order>): (n: nat)
    ensures n <= |live|
  {
    PopCount(side, bound, SortByPrice(side, live), 0)
  }

  /** The live orders popped beyond the bound. */
  function Popped(side: Side, bound: Option<real>, live: seq<Order>): seq<Order>
  {
    SortByPrice(side, live)[..Cut(side, bound, live)]
  }

  /** The sorted live orders left for the diff. */
  function Rest(side: Side, bound: Option<real>, live: seq<Order>): (r: seq<Order>)
    ensures AllComparable(Current, live) ==> AllComparable(Current, r)
  {
    var sorted := SortByPrice(side, live);
    var r := sorted[Cut(side, bound, live)..];
    assert forall x :: x in r ==> x in live by {
      forall x | x in r ensures x in live {
        assert x in multiset(sorted);
      }
    }
    KeepsComparable(Current, r, live);
    r
  }

  /** The merge's moves on one side. */
  function SideTrace(cfg: Config, side: Side, bound: Option<real>, live: seq<Order>, wanted: seq<Order>): seq<Move>
    requires AllComparable(Current, live)
  {
    Trace(Current, cfg, side, Rest(side, bound, live), Within(side, bound, wanted), 0, 0, 0)
  }

  /** `calculate_orders_diff` on one side, after the bound filters. */
  function SideDiff(cfg: Config, side: Side, bound: Option<real>, live: seq<Order>, wanted: seq<Order>): DiffResult
    requires AllComparable(Current, live)
  {
    CalculateOrdersDiff(Current, cfg, side, Rest(side, bound, live), Within(side, bound, wanted))
  }

  /** The diff's orders come from the live and wanted ladders, so their
      notionals are defined. */
  lemma SideDiffDefined(cfg: Config, side: Side, bound: Option<real>, live: seq<Order>, wanted: seq<Order>, inverse: bool)
    requires AllComparable(Current, live)
    requires AllDefined(wanted, inverse)
    ensures AllDefined(SideDiff(cfg, side, bound, live, wanted).create, inverse)
    ensures AllDefined(SideDiff(cfg, side, bound, live, wanted).delete, inverse)
  {
    var rest, w := Rest(side, bound, live), Within(side, bound, wanted);
    var d := SideDiff(cfg, side, bound, live, wanted);
    DiffAccountsForEveryLiveOrder(Current, cfg, side, rest, w);
    DiffRespectsLevelCap(Current, cfg, side, rest, w);
    SubsequenceMembers(d.delete, rest);
    KeepsComparable(Current, d.delete, rest);
    ComparableDefined(d.delete, inverse);
    WithinMeaning(side, bound, wanted);
    SubsequenceMembers(d.create, w);
    DefinedMembers(d.create, wanted, inverse);
  }

  /** `get_orders` on one side's diff. */
  function SideOrders(cfg: Config, side: Side, bound: Option<real>, live: seq<Order>, wanted: seq<Order>,
                      inverse: bool, postOnly: bool): GetOrdersResult
    requires AllComparable(Current, live)
    requires AllDefined(wanted, inverse)
  {
    SideDiffDefined(cfg, side, bound, live, wanted, inverse);
    var d := SideDiff(cfg, side, bound, live, wanted);
    GetOrders(d.create, d.delete, inverse, postOnly)
  }

  /** The deletes of one side's diff that `get_orders` turns into edits. */
  function SideAbsorbed(cfg: Config, side: Side, bound: Option<real>, live: seq<Order>, wanted: seq<Order>,
                        inverse: bool): seq<Order>
    requires AllComparable(Current, live)
    requires AllDefined(wanted, inverse)
  {
    SideDiffDefined(cfg, side, bound, live, wanted, inverse);
    var d := SideDiff(cfg, side, bound, live, wanted);
    Absorbed(d.create, d.delete, inverse)
  }

  /** Every live order of the side ends up exactly once: popped beyond the
      bound, left in place by the diff, absorbed into an edit, or cancelled. */
  lemma SideAccountsForEveryOrder(cfg: Config, side: Side, bound: Option<real>, live: seq<Order>,
                                  wanted: seq<Order>, inverse: bool, postOnly: bool)
    requires AllComparable(Current, live)
    requires AllDefined(wanted, inverse)
    ensures multiset(Popped(side, bound, live))
      + multiset(Kept(SideTrace(cfg, side, bound, live, wanted)))
      + multiset(SideAbsorbed(cfg, side, bound, live, wanted, inverse))
      + multiset(SideOrders(cfg, side, bound, live, wanted, inverse, postOnly).delete)
      == multiset(live)
  {
    var sorted := SortByPrice(side, live);
    var n := Cut(side, bound, live);
    var rest, w := Rest(side, bound, live), Within(side, bound, wanted);
    assert sorted == Popped(side, bound, live) + rest;
    SideDiffDefined(cfg, side, bound, live, wanted, inverse);
    var d := SideDiff(cfg, side, bound, live, wanted);
    DiffAccountsForEveryLiveOrder(Current, cfg, side, rest, w);
    GetOrdersAccountsForDeletes(d.create, d.delete, inverse, postOnly);
  }

  /** Under an active bound the popped orders are exactly the live orders
      beyond it. */
  lemma SidePopsBeyondBound(side: Side, bound: Option<real>, live: seq<Order>)
    requires Active(bound)
    ensures forall k :: 0 <= k < |Popped(side, bound, live)| ==> Beyond(side, bound.value, Popped(side, bound, live)[k].price)
    ensures forall k :: 0 <= k < |Rest(side, bound, live)| ==> !Beyond(side, bound.value, Rest(side, bound, live)[k].price)
  {
    var sorted := SortByPrice(side, live);
    SortOrdered(side, live);
    PopTakesAllBeyond(side, bound, sorted);
  }

  /** Under an active bound no edit or create of the side is priced beyond it. */
  lemma SideSubmitsWithinBound(cfg: Config, side: Side, bound: Option<real>, live: seq<Order>,
                               wanted: seq<Order>, inverse: bool, postOnly: bool)
    requires AllComparable(Current, live)
    requires AllDefined(wanted, inverse)
    requires Active(bound)
    ensures var r := SideOrders(cfg, side, bound, live, wanted, inverse, postOnly);
      && (forall k :: 0 <= k < |r.create| ==> !Beyond(side, bound.value, r.create[k].price))
      && (forall k :: 0 <= k < |r.edit| ==> !Beyond(side, bound.value, r.edit[k].limitPrice))
  {
    SideDiffDefined(cfg, side, bound, live, wanted, inverse);
    var d := SideDiff(cfg, side, bound, live, wanted);
    CreatesWithinBound(cfg, side, bound, Rest(side, bound, live), wanted);
    var r := GetOrders(d.create, d.delete, inverse, postOnly);
    assert r == SideOrders(cfg, side, bound, live, wanted, inverse, postOnly);
    GetOrdersPricesFromCreates(d.create, d.delete, inverse, postOnly, p => !Beyond(side, bound.value, p));
  }

  /** The diff against the bound-filtered ladder creates nothing beyond the bound. */
  lemma CreatesWithinBound(cfg: Config, side: Side, bound: Option<real>, rest: seq<Order>, wanted: seq<Order>)
    requires AllComparable(Current, rest)
    requires Active(bound)
    ensures var creates := CalculateOrdersDiff(Current, cfg, side, rest, Within(side, bound, wanted)).create;
      forall k :: 0 <= k < |creates| ==> !Beyond(side, bound.value, creates[k].price)
  {
    var w := Within(side, bound, wanted);
    WithinMeaning(side, bound, wanted);
    DiffRespectsLevelCap(Current, cfg, side, rest, w);
    var creates := CalculateOrdersDiff(Current, cfg, side, rest, w).create;
    SubsequenceMembers(creates, w);
    forall k | 0 <= k < |creates| ensures !Beyond(side, bound.value, creates[k].price) {
      assert creates[k] in w;
    }
  }

  /** The orders `converge_orders` submits: cancels, edits and creates. */
  datatype ConvergePlan = ConvergePlan(cancel: seq<Order>, edit: seq<EditRequest>, create: seq<Order>)

  /** `converge_orders`. The live ladder is the open orders with their
      unfilled size; `maxBid` and `minAsk` are the optional bounds. The
      cancels are the popped bids, the popped asks, then what is left of the
      diff's asks and bids; the creates are asks then bids; the edits come
      bids first when the trend is -1 and asks first otherwise. */
  function ConvergeOrders(cfg: Config, opens: seq<OpenOrder>, buyWanted: seq<Order>, sellWanted: seq<Order>,
                          maxBid: Option<real>, minAsk: Option<real>, inverse: bool, postOnly: bool): ConvergePlan
    requires AllComparable(Current, LiveOrders(opens))
    requires AllDefined(buyWanted, inverse) && AllDefined(sellWanted, inverse)
  {
    var bids, asks := SideLive(Buy, opens), SideLive(Sell, opens);
    var buy := SideOrders(cfg, Buy, maxBid, bids, buyWanted, inverse, postOnly);
    var sell := SideOrders(cfg, Sell, minAsk, asks, sellWanted, inverse, postOnly);
    var trend := TrendOf(SideDiff(cfg, Sell, minAsk, asks, sellWanted), SideDiff(cfg, Buy, maxBid, bids, buyWanted));
    ConvergePlan(
      Popped(Buy, maxBid, bids) + Popped(Sell, minAsk, asks) + sell.delete + buy.delete,
      if trend == -1 then buy.edit + sell.edit else sell.edit + buy.edit,
      sell.create + buy.create)
  }

  /** Every open order is accounted for exactly once: cancelled, absorbed
      into an edit (which carries its id), or left in place by the diff. */
  lemma ConvergeAccountsForEveryOrder(cfg: Config, opens: seq<OpenOrder>, buyWanted: seq<Order>, sellWanted: seq<Order>,
                                      maxBid: Option<real>, minAsk: Option<real>, inverse: bool, postOnly: bool)
    requires AllComparable(Current, LiveOrders(opens))
    requires AllDefined(buyWanted, inverse) && AllDefined(sellWanted, inverse)
    ensures var bids, asks := SideLive(Buy, opens), SideLive(Sell, opens);
      var p := ConvergeOrders(cfg, opens, buyWanted, sellWanted, maxBid, minAsk, inverse, postOnly);
      multiset(p.cancel)
        + multiset(SideAbsorbed(cfg, Buy, maxBid, bids, buyWanted, inverse))
        + multiset(SideAbsorbed(cfg, Sell, minAsk, asks, sellWanted, inverse))
        + multiset(Kept(SideTrace(cfg, Buy, maxBid, bids, buyWanted)))
        + multiset(Kept(SideTrace(cfg, Sell, minAsk, asks, sellWanted)))
      == multiset(LiveOrders(opens))
  {
    var bids, asks := SideLive(Buy, opens), SideLive(Sell, opens);
    OfSideMeaning(Buy, LiveOrders(opens));
    SideAccountsForEveryOrder(cfg, Buy, maxBid, bids, buyWanted, inverse, postOnly);
    SideAccountsForEveryOrder(cfg, Sell, minAsk, asks, sellWanted, inverse, postOnly);
  }

  /** The market fell on the side the trend is read from: the asks if they
      both create and delete, else the bids if they do. */
  predicate FellOnTrendSide(sell: DiffResult, buy: DiffResult)
  {
    if |sell.create| > 0 && |sell.delete| > 0 then Fell(Sell, sell.create, sell.delete)
    else |buy.create| > 0 && |buy.delete| > 0 && Fell(Buy, buy.create, buy.delete)
  }

  lemma TrendOfMeaning(sell: DiffResult, buy: DiffResult)
    ensures TrendOf(sell, buy) == -1 <==> FellOnTrendSide(sell, buy)
  {
    if |sell.create| > 0 && |sell.delete| > 0 {
      MarketTrendMeaning(Sell, sell.create, sell.delete);
    } else if |buy.create| > 0 && |buy.delete| > 0 {
      MarketTrendMeaning(Buy, buy.create, buy.delete);
    }
  }

  /** The edit order follows the market: bid edits go first exactly when the
      market fell on the side the trend is read from. */
  lemma EditOrderFollowsTrend(cfg: Config, opens: seq<OpenOrder>, buyWanted: seq<Order>, sellWanted: seq<Order>,
                              maxBid: Option<real>, minAsk: Option<real>, inverse: bool, postOnly: bool)
    requires AllComparable(Current, LiveOrders(opens))
    requires AllDefined(buyWanted, inverse) && AllDefined(sellWanted, inverse)
    ensures var bids, asks := SideLive(Buy, opens), SideLive(Sell, opens);
      var buy := SideOrders(cfg, Buy, maxBid, bids, buyWanted, inverse, postOnly);
      var sell := SideOrders(cfg, Sell, minAsk, asks, sellWanted, inverse, postOnly);
      var p := ConvergeOrders(cfg, opens, buyWanted, sellWanted, maxBid, minAsk, inverse, postOnly);
      p.edit == if FellOnTrendSide(SideDiff(cfg, Sell, minAsk, asks, sellWanted), SideDiff(cfg, Buy, maxBid, bids, buyWanted))
                then buy.edit + sell.edit else sell.edit + buy.edit
  {
    var bids, asks := SideLive(Buy, opens), SideLive(Sell, opens);
    TrendOfMeaning(SideDiff(cfg, Sell, minAsk, asks, sellWanted), SideDiff(cfg, Buy, maxBid, bids, buyWanted));
  }

  /** A batch call to the venue. */
  datatype Request =
    | BatchCancel(orders: seq<Order>)
    | BatchEdit(edits: seq<EditRequest>)
    | BatchCreate(orders: seq<Order>)

  /** The position of a call in the submission order. */
  function Rank(r: Request): int
  {
    match r
    case BatchCancel(_) => 0
    case BatchEdit(_) => 1
    case BatchCreate(_) => 2
  }

  /** The calls `converge_orders` makes: each list only when it is non-empty. */
  function Submissions(p: ConvergePlan): (r: seq<Request>)
    ensures forall i, j :: 0 <= i < j < |r| ==> Rank(r[i]) < Rank(r[j])
    ensures forall k :: 0 <= k < |r| ==> r[k] in {BatchCancel(p.cancel), BatchEdit(p.edit), BatchCreate(p.create)}
    ensures BatchCancel(p.cancel) in r <==> |p.cancel| > 0
    ensures BatchEdit(p.edit) in r <==> |p.edit| > 0
    ensures BatchCreate(p.create) in r <==> |p.create| > 0
  {
    (if |p.cancel| > 0 then [BatchCancel(p.cancel)] else [])
    + (if |p.edit| > 0 then [BatchEdit(p.edit)] else [])
    + (if |p.create| > 0 then [BatchCreate(p.create)] else [])
  }
}
