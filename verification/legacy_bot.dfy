/** The standalone bot's `converge_orders`: the open orders are split by side
    and sorted, the wanted ladders are trimmed against the venue's ticker,
    each side is diffed with the legacy classifier, and the deletes are
    cancelled before the creates are placed. There is no bound filter, no edit
    pairing and no trend. */
module LegacyBot {
  import opened Wrappers
  import opened Orders
  import opened Seqs
  import opened PriceSort
  import opened LadderDiff
  import opened DeltaUtility
  import opened RestGateway
  import opened Converge

  /** A wanted bid is dropped when priced above the best ask, and a wanted ask
      when priced below the best bid. */
  predicate Tradeable(side: Side, t: Ticker, price: real)
  {
    match side
    case Buy => AtMostAsk(t, price)
    case Sell => price >= t.bestBuy
  }

  function TradeableFlags(side: Side, t: Ticker, wanted: seq<Order>): (f: seq<bool>)
    ensures |f| == |wanted|
    ensures forall k :: 0 <= k < |f| ==> (f[k] <==> Tradeable(side, t, wanted[k].price))
  {
    seq(|wanted|, k requires 0 <= k < |wanted| => Tradeable(side, t, wanted[k].price))
  }

  /** The ticker filter on one side's wanted ladder. */
  function TickerFilter(side: Side, t: Ticker, wanted: seq<Order>): seq<Order>
  {
    Pick(wanted, TradeableFlags(side, t, wanted), true)
  }

  /** The filter keeps, in order, exactly the wanted orders on the right side
      of the ticker. */
  lemma TickerFilterMeaning(side: Side, t: Ticker, wanted: seq<Order>)
    ensures IsSubsequence(TickerFilter(side, t, wanted), wanted)
    ensures forall x :: x in TickerFilter(side, t, wanted) <==> x in wanted && Tradeable(side, t, x.price)
  {
    var f := TradeableFlags(side, t, wanted);
    PickKeepsOrder(wanted, f, true);
    PickMembers(wanted, f, true);
  }

  /** An empty ask book reads as an infinite best ask, so no wanted bid is
      dropped; an empty bid book reads as 0, so no wanted ask at a
      non-negative price is dropped. */
  lemma EmptyBookFiltersNothing(book: L2Book, buyWanted: seq<Order>, sellWanted: seq<Order>)
    ensures |book.sellBook| == 0 ==> TickerFilter(Buy, GetTicker(book), buyWanted) == buyWanted
    ensures |book.buyBook| == 0 && (forall k :: 0 <= k < |sellWanted| ==> sellWanted[k].price >= 0.0) ==>
      TickerFilter(Sell, GetTicker(book), sellWanted) == sellWanted
  {
    var t := GetTicker(book);
    if |book.sellBook| == 0 {
      PickAll(buyWanted, TradeableFlags(Buy, t, buyWanted), true);
    }
    if |book.buyBook| == 0 && (forall k :: 0 <= k < |sellWanted| ==> sellWanted[k].price >= 0.0) {
      PickAll(sellWanted, TradeableFlags(Sell, t, sellWanted), true);
    }
  }

  /** One side's open orders with their unfilled size, best price first. */
  function LegacySide(side: Side, opens: seq<OpenOrder>): (r: seq<Order>)
    ensures AllComparable(Legacy, LiveOrders(opens)) ==> AllComparable(Legacy, r)
  {
    var own := OfSide(side, LiveOrders(opens));
    var r := SortByPrice(side, own);
    OfSideMeaning(side, LiveOrders(opens));
    assert forall x :: x in r ==> x in LiveOrders(opens) by {
      forall x | x in r ensures x in LiveOrders(opens) {
        assert x in multiset(own);
      }
    }
    KeepsComparable(Legacy, r, LiveOrders(opens));
    r
  }

  /** The legacy diff of one side against its filtered wanted ladder. */
  function LegacySideDiff(cfg: Config, side: Side, opens: seq<OpenOrder>, t: Ticker, wanted: seq<Order>): DiffResult
    requires AllComparable(Legacy, LiveOrders(opens))
  {
    CalculateOrdersDiff(Legacy, cfg, side, LegacySide(side, opens), TickerFilter(side, t, wanted))
  }

  datatype LegacyPlan = LegacyPlan(create: seq<Order>, delete: seq<Order>)

  /** `converge_orders` of the standalone bot, with the level-2 book the
      ticker is read from. The legacy classifier divides by the live size, so
      every open order must have a nonzero unfilled size. */
  function LegacyConverge(cfg: Config, opens: seq<OpenOrder>, buyWanted: seq<Order>, sellWanted: seq<Order>,
                          book: L2Book): LegacyPlan
    requires AllComparable(Legacy, LiveOrders(opens))
  {
    var t := GetTicker(book);
    var buy := LegacySideDiff(cfg, Buy, opens, t, buyWanted);
    var sell := LegacySideDiff(cfg, Sell, opens, t, sellWanted);
    LegacyPlan(sell.create + buy.create, sell.delete + buy.delete)
  }

  /** One side's creates come, in order, from its wanted ladder, on the right
      side of the ticker, within the level cap; its deletes come, in order,
      from its live orders. */
  lemma LegacySideMeaning(cfg: Config, side: Side, opens: seq<OpenOrder>, t: Ticker, wanted: seq<Order>)
    requires AllComparable(Legacy, LiveOrders(opens))
    ensures var d := LegacySideDiff(cfg, side, opens, t, wanted);
      && IsSubsequence(d.create, wanted)
      && (forall x :: x in d.create ==> Tradeable(side, t, x.price))
      && |d.create| <= Max(cfg.numLevels, 0)
      && IsSubsequence(d.delete, LegacySide(side, opens))
  {
    var live, w := LegacySide(side, opens), TickerFilter(side, t, wanted);
    var d := LegacySideDiff(cfg, side, opens, t, wanted);
    DiffRespectsLevelCap(Legacy, cfg, side, live, w);
    DiffAccountsForEveryLiveOrder(Legacy, cfg, side, live, w);
    TickerFilterMeaning(side, t, wanted);
    SubsequenceTrans(d.create, w, wanted);
    SubsequenceMembers(d.create, w);
  }

  /** Creates list the ask side first, then the bid side, each drawn in order
      from its own wanted ladder and on the right side of the ticker. */
  lemma LegacyConvergeMeaning(cfg: Config, opens: seq<OpenOrder>, buyWanted: seq<Order>, sellWanted: seq<Order>,
                              book: L2Book)
    requires AllComparable(Legacy, LiveOrders(opens))
    ensures var t := GetTicker(book);
      var p := LegacyConverge(cfg, opens, buyWanted, sellWanted, book);
      var n := |LegacySideDiff(cfg, Sell, opens, t, sellWanted).create|;
      && n <= |p.create|
      && IsSubsequence(p.create[..n], sellWanted)
      && IsSubsequence(p.create[n..], buyWanted)
      && (forall k :: 0 <= k < n ==> Tradeable(Sell, t, p.create[k].price))
      && (forall k :: n <= k < |p.create| ==> Tradeable(Buy, t, p.create[k].price))
  {
    var t := GetTicker(book);
    var buy := LegacySideDiff(cfg, Buy, opens, t, buyWanted);
    var sell := LegacySideDiff(cfg, Sell, opens, t, sellWanted);
    var p := LegacyConverge(cfg, opens, buyWanted, sellWanted, book);
    LegacySideMeaning(cfg, Sell, opens, t, sellWanted);
    LegacySideMeaning(cfg, Buy, opens, t, buyWanted);
    assert p.create[..|sell.create|] == sell.create;
    assert p.create[|sell.create|..] == buy.create;
    forall k | 0 <= k < |p.create|
      ensures k < |sell.create| ==> Tradeable(Sell, t, p.create[k].price)
      ensures k >= |sell.create| ==> Tradeable(Buy, t, p.create[k].price)
    {
      if k < |sell.create| {
        assert p.create[k] in sell.create;
      } else {
        assert p.create[k] == buy.create[k - |sell.create|];
        assert p.create[k] in buy.create;
      }
    }
  }

  /** Every open order is deleted or kept by its side's merge, exactly once. */
  lemma LegacyAccountsForEveryOrder(cfg: Config, opens: seq<OpenOrder>, buyWanted: seq<Order>, sellWanted: seq<Order>,
                                    book: L2Book)
    requires AllComparable(Legacy, LiveOrders(opens))
    ensures var t := GetTicker(book);
      var p := LegacyConverge(cfg, opens, buyWanted, sellWanted, book);
      var sellTrace := Trace(Legacy, cfg, Sell, LegacySide(Sell, opens), TickerFilter(Sell, t, sellWanted), 0, 0, 0);
      var buyTrace := Trace(Legacy, cfg, Buy, LegacySide(Buy, opens), TickerFilter(Buy, t, buyWanted), 0, 0, 0);
      multiset(p.delete) + multiset(Kept(sellTrace)) + multiset(Kept(buyTrace)) == multiset(LiveOrders(opens))
  {
    var t := GetTicker(book);
    DiffAccountsForEveryLiveOrder(Legacy, cfg, Sell, LegacySide(Sell, opens), TickerFilter(Sell, t, sellWanted));
    DiffAccountsForEveryLiveOrder(Legacy, cfg, Buy, LegacySide(Buy, opens), TickerFilter(Buy, t, buyWanted));
    OfSideMeaning(Sell, LiveOrders(opens));
  }

  /** The calls the bot makes: a batch cancel of the deletes (as cancel
      records), then a batch create. */
  datatype LegacyRequest = CancelBatch(cancels: seq<CancelRequest>) | CreateBatch(orders: seq<Order>)

  function CancelRecords(os: seq<Order>): (r: seq<CancelRequest>)
    ensures |r| == |os|
    ensures forall k :: 0 <= k < |os| ==> r[k].id == os[k].id && r[k].productId == os[k].productId
  {
    seq(|os|, k requires 0 <= k < |os| => CancelOrderFormat(os[k]))
  }

  function LegacySubmissions(p: LegacyPlan): (r: seq<LegacyRequest>)
  {
    (if |p.delete| > 0 then [CancelBatch(CancelRecords(p.delete))] else [])
    + (if |p.create| > 0 then [CreateBatch(p.create)] else [])
  }

  /** A batch is sent iff it is nonempty; cancels go before creates; the
      cancel batch names exactly the deleted orders, in order. */
  lemma LegacySubmissionsMeaning(p: LegacyPlan)
    ensures var r := LegacySubmissions(p);
      && |r| <= 2
      && (CreateBatch(p.create) in r <==> |p.create| > 0)
      && ((exists k :: 0 <= k < |r| && r[k].CancelBatch?) <==> |p.delete| > 0)
      && (forall k :: 0 <= k < |r| ==> (r[k].CreateBatch? ==> r[k].orders == p.create))
      && (forall k :: 0 <= k < |r| ==> (r[k].CancelBatch? ==> k == 0 && r[k].cancels == CancelRecords(p.delete)))
  {
    var r := LegacySubmissions(p);
    if |p.delete| > 0 {
      assert r[0].CancelBatch?;
    }
  }
}
