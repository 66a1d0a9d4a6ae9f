/** The bookkeeping of the streaming client: the dispatch of feed messages,
    the per-symbol order-book cache, the per-key mark and spot price caches
    with their time-to-live, the callback table, the reconnect decision on
    close, and market orders. Clock readings are parameters. */
module StreamClient {
  import opened Wrappers
  import opened Orders
  import opened Seqs
  import opened PriceSort
  import opened DeltaUtility
  import opened PriceRounding
  import opened PositionRecords
  import RestGateway
  import Failures

  /** A book level as the feed sends it. */
  datatype FeedLevel = FeedLevel(limitPrice: real, size: real)

  /** A cached book, under the keys the source stores it with. */
  datatype BookEntry = BookEntry(symbol: string, lastSeen: real, asks: seq<FeedLevel>, bids: seq<FeedLevel>)

  /** A cached value with the time it was stored. */
  datatype Stamped<T> = Stamped(value: T, seenAt: real)

  /** The client's state: the books (a list, searched by symbol), the
      positions, mark and spot prices by key, the callback of each subscribed
      channel (`None` when subscribed without one), the `exited` flag, and
      whether the socket is connected. */
  datatype Client = Client(
    books: seq<BookEntry>,
    positions: map<int, Stamped<PositionRecord>>,
    markPrices: map<int, Stamped<real>>,
    spotPrices: map<string, Stamped<real>>,
    callbacks: map<string, Option<int>>,
    exited: bool,
    connected: bool)

  /** The fields a feed message may carry. */
  datatype Body = Body(
    symbol: string, productId: int, buy: seq<FeedLevel>, sell: seq<FeedLevel>,
    price: real, size: real, entryPrice: real, margin: real, liquidationPrice: real)

  /** A frame that is not JSON, JSON without a `type` (only logged), or a
      typed event. */
  datatype Message = Unparsable | Untyped | Event(kind: string, body: Body)

  /** The new state and the callback invoked with the message, if any. */
  datatype Dispatch = Dispatch(client: Client, notified: Option<int>)

  const TradingKinds: seq<string> := ["fill", "self_trade", "pnl", "liquidation", "adl", "stop_trigger", "stop_cancel"]
  const NotificationsChannel: string := "trading_notifications"

  /** Books are kept one per symbol. */
  predicate UniqueBooks(books: seq<BookEntry>)
  {
    forall i, j :: 0 <= i < j < |books| ==> books[i].symbol != books[j].symbol
  }

  /** The position of the first book of `symbol` from index `i` on. */
  function FindBook(books: seq<BookEntry>, symbol: string, i: nat): (r: Option<nat>)
    requires i <= |books|
    ensures r.Some? ==> i <= r.value < |books| && books[r.value].symbol == symbol
    ensures r.Some? ==> forall k :: i <= k < r.value ==> books[k].symbol != symbol
    ensures r.None? ==> forall k :: i <= k < |books| ==> books[k].symbol != symbol
    decreases |books| - i
  {
    if i == |books| then None
    else if books[i].symbol == symbol then Some(i)
    else FindBook(books, symbol, i + 1)
  }

  /** `orderbook_updates`: an existing book gets the time, `bids` from the
      feed's buy side and `asks` from its sell side; a first book is appended
      with the sides the other way round. */
  function OrderbookUpdate(books: seq<BookEntry>, symbol: string, buy: seq<FeedLevel>, sell: seq<FeedLevel>,
                           now: real): seq<BookEntry>
  {
    match FindBook(books, symbol, 0)
    case Some(i) => books[i := BookEntry(symbol, now, sell, buy)]
    case None => books + [BookEntry(symbol, now, buy, sell)]
  }

  /** The update touches one book, the first of its symbol, or appends one
      when there is none; no second book of a symbol is ever made; the sides
      are stored swapped on the first insertion only. */
  lemma OrderbookUpdateMeaning(books: seq<BookEntry>, symbol: string, buy: seq<FeedLevel>, sell: seq<FeedLevel>,
                               now: real)
    ensures UniqueBooks(books) ==> UniqueBooks(OrderbookUpdate(books, symbol, buy, sell, now))
    ensures var r := OrderbookUpdate(books, symbol, buy, sell, now);
      match FindBook(r, symbol, 0)
      case Some(i) =>
        && r[i].lastSeen == now
        && (if exists k :: 0 <= k < |books| && books[k].symbol == symbol
            then |r| == |books| && r[i].bids == buy && r[i].asks == sell
            else |r| == |books| + 1 && i == |books| && r[i].asks == buy && r[i].bids == sell)
      case None => false
    ensures var r := OrderbookUpdate(books, symbol, buy, sell, now);
      forall k :: 0 <= k < |books| && books[k].symbol != symbol ==> r[k] == books[k]
  {
    var r := OrderbookUpdate(books, symbol, buy, sell, now);
    match FindBook(books, symbol, 0)
    case Some(i) =>
      var f := FindBook(r, symbol, 0);
      assert r[i].symbol == symbol;
      assert f.Some? && f.value == i by {
        assert forall k :: 0 <= k < i ==> r[k] == books[k];
      }
    case None =>
      var f := FindBook(r, symbol, 0);
      assert r[|books|].symbol == symbol;
      assert f.Some? && f.value == |books| by {
        assert forall k :: 0 <= k < |books| ==> r[k] == books[k];
      }
  }

  /** `position_updates`: the entry price rounded to the nearest tick, the
      size truncated to whole contracts, and the margin and liquidation price
      as sent. A zero tick size raises inside the rounding, and the dispatcher
      drops the message. */
  function PositionUpdate(c: Client, b: Body, now: real, tick: real): Client
  {
    if tick == 0.0 then c
    else
      var p := GetPosition(Some(Trunc(b.size)), Some(RoundPriceByTickSize(b.entryPrice, tick, Nearest)), None);
      var p := p.(margin := b.margin, liquidationPrice := Some(b.liquidationPrice));
      c.(positions := c.positions[b.productId := Stamped(p, now)])
  }

  /** Where `__on_message` sends an event, by its `type`. */
  datatype Route = ToBooks | ToNotifications | ToPositions | ToMarkPrices | ToSpotPrices | Dropped

  /** The chain of `type` tests, in the source's order. */
  function RouteOf(kind: string): (r: Route)
    ensures r == ToBooks <==> kind == "l2_orderbook"
    ensures r == ToNotifications <==> kind in TradingKinds
    ensures r == ToPositions <==> kind == "positions"
    ensures r == ToMarkPrices <==> kind == "mark_price"
    ensures r == ToSpotPrices <==> kind == "spot_price"
  {
    if kind == "l2_orderbook" then ToBooks
    else if kind in TradingKinds then ToNotifications
    else if kind == "positions" then ToPositions
    else if kind == "mark_price" then ToMarkPrices
    else if kind == "spot_price" then ToSpotPrices
    else Dropped
  }

  /** The state change of an event sent along route `r`. */
  function Apply(c: Client, r: Route, b: Body, now: real, tick: real): Client
  {
    match r
    case ToBooks => c.(books := OrderbookUpdate(c.books, b.symbol, b.buy, b.sell, now))
    case ToPositions => PositionUpdate(c, b, now, tick)
    case ToMarkPrices => c.(markPrices := c.markPrices[b.productId := Stamped(b.price, now)])
    case ToSpotPrices => c.(spotPrices := c.spotPrices[b.symbol := Stamped(b.price, now)])
    case _ => c
  }

  /** `__on_message`. */
  function OnMessage(c: Client, m: Message, now: real, tick: real): Dispatch
  {
    match m
    case Unparsable => Dispatch(c, None)
    case Untyped => Dispatch(c, None)
    case Event(kind, b) =>
      var r := RouteOf(kind);
      Dispatch(Apply(c, r, b, now, tick),
               if r == ToNotifications && NotificationsChannel in c.callbacks then c.callbacks[NotificationsChannel]
               else None)
  }

  /** Each route changes only its own cache, positions only with a nonzero
      tick; the callback table, `exited` and the connection never change. */
  lemma ApplyFrames(c: Client, r: Route, b: Body, now: real, tick: real)
    ensures var d := Apply(c, r, b, now, tick);
      && d.callbacks == c.callbacks && d.exited == c.exited && d.connected == c.connected
      && (d.books != c.books ==> r == ToBooks)
      && (d.positions != c.positions ==> r == ToPositions && tick != 0.0)
      && (d.markPrices != c.markPrices ==> r == ToMarkPrices)
      && (d.spotPrices != c.spotPrices ==> r == ToSpotPrices)
  {
  }

  /** A trading notification reaches the registered callback; a channel
      registered without a callback hears nothing, and no other message
      reaches a callback. */
  lemma OnMessageNotifies(c: Client, m: Message, now: real, tick: real)
    ensures var d := OnMessage(c, m, now, tick);
      && (d.notified.Some? <==>
            m.Event? && m.kind in TradingKinds && NotificationsChannel in c.callbacks
            && c.callbacks[NotificationsChannel].Some?)
      && (d.notified.Some? ==> d.notified == c.callbacks[NotificationsChannel])
  {
  }

  /** Only the four cached kinds change the state, each only its own cache;
      notifications, unknown, untyped and unparsable messages change nothing.
      The callback table, the `exited` flag and the connection are never
      touched. */
  lemma OnMessageCaches(c: Client, m: Message, now: real, tick: real)
    ensures var d := OnMessage(c, m, now, tick);
      && d.client.callbacks == c.callbacks && d.client.exited == c.exited && d.client.connected == c.connected
      && (d.client.books != c.books ==> m.kind == "l2_orderbook")
      && (d.client.positions != c.positions ==> m.kind == "positions" && tick != 0.0)
      && (d.client.markPrices != c.markPrices ==> m.kind == "mark_price")
      && (d.client.spotPrices != c.spotPrices ==> m.kind == "spot_price")
  {
    if m.Event? {
      ApplyFrames(c, RouteOf(m.kind), m.body, now, tick);
    }
  }

  /** Whatever the message, books stay one per symbol. */
  lemma OnMessageKeepsBooksUnique(c: Client, m: Message, now: real, tick: real)
    requires UniqueBooks(c.books)
    ensures UniqueBooks(OnMessage(c, m, now, tick).client.books)
  {
    if m.Event? && RouteOf(m.kind) == ToBooks {
      OrderbookUpdateMeaning(c.books, m.body.symbol, m.body.buy, m.body.sell, now);
    }
  }

  /** A stored position: truncated size, entry on the tick grid, and the
      margin and liquidation price of the message. */
  lemma PositionUpdateMeaning(c: Client, b: Body, now: real, tick: real)
    requires tick != 0.0
    ensures var r := PositionUpdate(c, b, now, tick);
      && b.productId in r.positions
      && var p := r.positions[b.productId];
      && p.seenAt == now
      && p.value.entryPrice.Some? && IsMultipleOf(p.value.entryPrice.value, tick)
      && (b.size >= 0.0 ==> 0 <= p.value.size && p.value.size as real <= b.size < p.value.size as real + 1.0)
      && (b.size <= 0.0 ==> p.value.size <= 0 && p.value.size as real - 1.0 < b.size <= p.value.size as real)
      && p.value.margin == b.margin && p.value.liquidationPrice == Some(b.liquidationPrice)
      && (forall q :: q in c.positions && q != b.productId ==> q in r.positions && r.positions[q] == c.positions[q])
  {
    RoundPriceOnGrid(b.entryPrice, tick, Nearest);
  }

  /** A position as the venue's REST endpoint returns it. */
  datatype RestPosition = RestPosition(size: real, entryPrice: real, margin: real, liquidationPrice: real)

  /** `get_position_over_rest`: a reply whose size truncates to a nonzero
      whole number is an open position, recorded as a streamed one is (entry
      price rounded to the nearest tick, size truncated, margin and
      liquidation price as sent). No reply, or a size under one contract,
      gives the flat default with no margin and no liquidation price. A zero
      tick size raises inside the rounding: `None`. */
  function PositionOverRest(reply: Option<RestPosition>, tick: real): Option<PositionRecord>
  {
    if reply.None? || Trunc(reply.value.size) == 0 then Some(GetPosition(None, None, None))
    else if tick == 0.0 then None
    else
      var r := reply.value;
      var p := GetPosition(Some(Trunc(r.size)), Some(RoundPriceByTickSize(r.entryPrice, tick, Nearest)), None);
      Some(p.(margin := r.margin, liquidationPrice := Some(r.liquidationPrice)))
  }

  /** The fetched record is flat exactly when there is no reply or its size
      is under one contract either way, and then it is the default record;
      an open record keeps the side and the whole contracts of the reply,
      has its entry on the tick grid, and carries the margin and liquidation
      price sent. */
  lemma PositionOverRestMeaning(reply: Option<RestPosition>, tick: real)
    ensures PositionOverRest(reply, tick).None? <==> reply.Some? && Trunc(reply.value.size) != 0 && tick == 0.0
    ensures var r := PositionOverRest(reply, tick);
      r.Some? ==> (r.value.size == 0 <==> reply.None? || -1.0 < reply.value.size < 1.0)
    ensures var r := PositionOverRest(reply, tick);
      r.Some? && r.value.size == 0 ==> r.value == PositionRecord(0, None, None, 0.0)
    ensures var r := PositionOverRest(reply, tick);
      r.Some? && r.value.size != 0 ==>
        && reply.Some?
        && (reply.value.size > 0.0 ==> r.value.size > 0 && r.value.size as real <= reply.value.size < r.value.size as real + 1.0)
        && (reply.value.size < 0.0 ==> r.value.size < 0 && r.value.size as real - 1.0 < reply.value.size <= r.value.size as real)
        && r.value.entryPrice.Some? && IsMultipleOf(r.value.entryPrice.value, tick)
        && r.value.margin == reply.value.margin
        && r.value.liquidationPrice == Some(reply.value.liquidationPrice)
  {
    if reply.Some? && Trunc(reply.value.size) != 0 && tick != 0.0 {
      RoundPriceOnGrid(reply.value.entryPrice, tick, Nearest);
    }
  }

  /** `position`: the record fetched over REST, also stored in the position
      cache under the product with the time of the fetch. */
  function FetchPosition(c: Client, productId: int, reply: Option<RestPosition>, tick: real, now: real): Option<(Client, PositionRecord)>
  {
    match PositionOverRest(reply, tick)
    case None => None
    case Some(p) => Some((c.(positions := c.positions[productId := Stamped(p, now)]), p))
  }

  /** What `position` returns is what a later cache read finds, stamped now;
      the other products' entries and the rest of the client are untouched. */
  lemma FetchPositionMeaning(c: Client, productId: int, reply: Option<RestPosition>, tick: real, now: real)
    ensures FetchPosition(c, productId, reply, tick, now).Some? <==> PositionOverRest(reply, tick).Some?
    ensures var f := FetchPosition(c, productId, reply, tick, now);
      f.Some? ==>
        && productId in f.value.0.positions
        && f.value.0.positions[productId] == Stamped(f.value.1, now)
        && f.value.0.books == c.books && f.value.0.markPrices == c.markPrices
        && f.value.0.spotPrices == c.spotPrices && f.value.0.callbacks == c.callbacks
        && (forall q :: q in c.positions && q != productId ==> q in f.value.0.positions && f.value.0.positions[q] == c.positions[q])
  {
  }

  /** Where a depth, price or spot read comes from. */
  datatype Depth = CachedDepth(asks: seq<Order>, bids: seq<Order>) | DepthFromRest
  datatype PriceSource = CachedPrice(value: real) | PriceFromRest

  const BookTtl: real := 2.0
  const PriceTtl: real := 15.0

  /** A feed level as a quote of the given side: price rounded to the
      nearest tick, size truncated. */
  function Quote(side: Side, productId: int, l: FeedLevel, tick: real): Order
    requires tick != 0.0
  {
    Order(None, productId, side, RoundPriceByTickSize(l.limitPrice, tick, Nearest), Trunc(l.size), LimitOrder, false)
  }

  function Quotes(side: Side, productId: int, ls: seq<FeedLevel>, tick: real): (r: seq<Order>)
    requires tick != 0.0
    ensures |r| == |ls|
    ensures forall k :: 0 <= k < |ls| ==> r[k] == Quote(side, productId, ls[k], tick)
  {
    seq(|ls|, k requires 0 <= k < |ls| => Quote(side, productId, ls[k], tick))
  }

  function AboveTickFlags(tick: real, os: seq<Order>): (f: seq<bool>)
    ensures |f| == |os|
    ensures forall k :: 0 <= k < |os| ==> (f[k] <==> os[k].price > tick)
  {
    seq(|os|, k requires 0 <= k < |os| => os[k].price > tick)
  }

  /** `market_depth`: the cached book of `symbol` is used when the socket is
      connected and the book was seen less than 2 seconds ago; asks come out
      ascending, bids descending and only those priced above one tick. The
      quotes carry the client's product. */
  function MarketDepth(c: Client, symbol: string, productId: int, now: real, tick: real): Depth
    requires tick != 0.0
  {
    match FindBook(c.books, symbol, 0)
    case Some(i) =>
      if c.connected && now - c.books[i].lastSeen < BookTtl then
        var bids := Quotes(Buy, productId, c.books[i].bids, tick);
        CachedDepth(SortByPrice(Sell, Quotes(Sell, productId, c.books[i].asks, tick)),
                    SortByPrice(Buy, Pick(bids, AboveTickFlags(tick, bids), true)))
      else DepthFromRest
    case None => DepthFromRest
  }

  /** The cache answers iff connected with a book of the symbol younger than
      2 seconds; the first book of the symbol is the one read. */
  lemma MarketDepthSource(c: Client, symbol: string, productId: int, now: real, tick: real)
    requires tick != 0.0
    ensures var d := MarketDepth(c, symbol, productId, now, tick);
      var f := FindBook(c.books, symbol, 0);
      && (d.CachedDepth? <==> c.connected && f.Some? && now - c.books[f.value].lastSeen < BookTtl)
      && (f.None? <==> forall k :: 0 <= k < |c.books| ==> c.books[k].symbol != symbol)
  {
  }

  /** The bids kept are exactly the quotes priced above one tick. */
  lemma AboveTickMembers(tick: real, bids: seq<Order>)
    ensures var kept := Pick(bids, AboveTickFlags(tick, bids), true);
      forall x :: x in kept <==> x in bids && x.price > tick
  {
    var f := AboveTickFlags(tick, bids);
    PickMembers(bids, f, true);
    forall x | x in Pick(bids, f, true) ensures x.price > tick {
      var k :| 0 <= k < |bids| && bids[k] == x && f[k];
    }
  }

  /** The cached answer's asks are every cached ask quote, ascending; its
      bids are exactly the cached bid quotes priced above one tick,
      descending. */
  lemma MarketDepthContents(c: Client, symbol: string, productId: int, now: real, tick: real)
    requires tick != 0.0
    ensures var d := MarketDepth(c, symbol, productId, now, tick);
      d.CachedDepth? ==>
        var b := c.books[FindBook(c.books, symbol, 0).value];
        && PriceOrdered(Sell, d.asks) && PriceOrdered(Buy, d.bids)
        && multiset(d.asks) == multiset(Quotes(Sell, productId, b.asks, tick))
        && (forall x :: x in d.bids <==> x in Quotes(Buy, productId, b.bids, tick) && x.price > tick)
  {
    var d := MarketDepth(c, symbol, productId, now, tick);
    if d.CachedDepth? {
      var b := c.books[FindBook(c.books, symbol, 0).value];
      var bids := Quotes(Buy, productId, b.bids, tick);
      var kept := Pick(bids, AboveTickFlags(tick, bids), true);
      assert d.bids == SortByPrice(Buy, kept);
      SortOrdered(Sell, Quotes(Sell, productId, b.asks, tick));
      SortOrdered(Buy, kept);
      AboveTickMembers(tick, bids);
      forall x ensures x in d.bids <==> x in kept {
        assert x in d.bids <==> x in multiset(d.bids);
        assert x in kept <==> x in multiset(kept);
      }
    }
  }

  /** `mark_price`: the cached price is used when connected and it was stored
      less than 15 seconds ago. */
  function MarkPrice(c: Client, productId: int, now: real): PriceSource
  {
    if c.connected && productId in c.markPrices && now - c.markPrices[productId].seenAt < PriceTtl
    then CachedPrice(c.markPrices[productId].value)
    else PriceFromRest
  }

  /** `spot_price`, keyed by the spot symbol. */
  function SpotPrice(c: Client, spotSymbol: string, now: real): PriceSource
  {
    if c.connected && spotSymbol in c.spotPrices && now - c.spotPrices[spotSymbol].seenAt < PriceTtl
    then CachedPrice(c.spotPrices[spotSymbol].value)
    else PriceFromRest
  }

  /** A price fed at time `t` is read back from the cache while the socket
      stays connected and less than 15 seconds have passed, and from the REST
      client afterwards. */
  lemma PriceFeedRoundTrip(c: Client, productId: int, symbol: string, price: real, t: real, now: real, tick: real)
    ensures var b := Body(symbol, productId, [], [], price, 0.0, 0.0, 0.0, 0.0);
      var m := OnMessage(c, Event("mark_price", b), t, tick).client;
      MarkPrice(m, productId, now) == (if c.connected && now - t < PriceTtl then CachedPrice(price) else PriceFromRest)
    ensures var b := Body(symbol, productId, [], [], price, 0.0, 0.0, 0.0, 0.0);
      var s := OnMessage(c, Event("spot_price", b), t, tick).client;
      SpotPrice(s, symbol, now) == (if c.connected && now - t < PriceTtl then CachedPrice(price) else PriceFromRest)
  {
  }

  /** A cached read is the stored value, and only a connected client with a
      fresh entry gets one. */
  lemma PriceCacheMeaning(c: Client, productId: int, spotSymbol: string, now: real)
    ensures MarkPrice(c, productId, now).CachedPrice? <==>
      c.connected && productId in c.markPrices && now < c.markPrices[productId].seenAt + PriceTtl
    ensures MarkPrice(c, productId, now).CachedPrice? ==> MarkPrice(c, productId, now).value == c.markPrices[productId].value
    ensures SpotPrice(c, spotSymbol, now).CachedPrice? <==>
      c.connected && spotSymbol in c.spotPrices && now < c.spotPrices[spotSymbol].seenAt + PriceTtl
    ensures SpotPrice(c, spotSymbol, now).CachedPrice? ==> SpotPrice(c, spotSymbol, now).value == c.spotPrices[spotSymbol].value
  {
  }

  /** `subscribeChannel`. */
  function Subscribe(c: Client, name: string, callback: Option<int>): Client
  {
    c.(callbacks := c.callbacks[name := callback])
  }

  /** `unsubscribeChannel`. */
  function Unsubscribe(c: Client, name: string): Client
  {
    c.(callbacks := c.callbacks - {name})
  }

  /** `disconnect`. */
  function Disconnect(c: Client): Client
  {
    c.(exited := true, callbacks := map[], connected := false)
  }

  /** The last registration of a channel wins; unsubscribing removes that
      channel and leaves every other; disconnecting clears the table and
      marks the client as exited. */
  lemma CallbackTableMeaning(c: Client, name: string, first: Option<int>, second: Option<int>, other: string)
    ensures Subscribe(Subscribe(c, name, first), name, second).callbacks == Subscribe(c, name, second).callbacks
    ensures name in Subscribe(c, name, first).callbacks && Subscribe(c, name, first).callbacks[name] == first
    ensures name !in Unsubscribe(c, name).callbacks
    ensures other != name ==>
      (other in Unsubscribe(c, name).callbacks <==> other in c.callbacks)
      && (other in c.callbacks ==> Unsubscribe(c, name).callbacks[other] == c.callbacks[other])
    ensures name !in c.callbacks ==> Unsubscribe(Subscribe(c, name, first), name).callbacks == c.callbacks
    ensures Disconnect(c).exited && |Disconnect(c).callbacks| == 0
  {
  }

  /** `connect` once the socket thread is started: when the socket came up in
      time, `exited` is cleared and every configured channel is subscribed
      with the configured callback; otherwise nothing changes but the
      connection state. */
  function Connect(c: Client, connectedInTime: bool, channels: seq<string>, callback: Option<int>): Client
  {
    if connectedInTime then SubscribeAll(c.(exited := false, connected := true), channels, callback)
    else c.(connected := false)
  }

  function SubscribeAll(c: Client, channels: seq<string>, callback: Option<int>): (r: Client)
    ensures r.exited == c.exited && r.connected == c.connected
    ensures forall n :: n in r.callbacks <==> n in c.callbacks || n in channels
    ensures forall n :: n in channels ==> r.callbacks[n] == callback
    ensures forall n :: n in c.callbacks && n !in channels ==> r.callbacks[n] == c.callbacks[n]
    decreases |channels|
  {
    if |channels| == 0 then c
    else SubscribeAll(Subscribe(c, channels[0], callback), channels[1..], callback)
  }

  /** `__on_close`: reconnect (disconnect, then connect) unless the client
      has exited. The flag says whether a reconnect was attempted. */
  function OnClose(c: Client, connectedInTime: bool, channels: seq<string>, callback: Option<int>): (Client, bool)
  {
    if c.exited then (c.(connected := false), false)
    else (Connect(Disconnect(c), connectedInTime, channels, callback), true)
  }

  /** A reconnect is attempted iff the client had not exited. After it the
      callback table holds exactly the configured channels, so channels
      subscribed later (the price feeds) are lost; a reconnect that timed
      out leaves the client exited, so the next close does not retry. */
  lemma OnCloseMeaning(c: Client, connectedInTime: bool, channels: seq<string>, callback: Option<int>)
    ensures OnClose(c, connectedInTime, channels, callback).1 <==> !c.exited
    ensures var (r, tried) := OnClose(c, connectedInTime, channels, callback);
      tried ==>
        && (r.exited <==> !connectedInTime)
        && r.connected == connectedInTime
        && (forall n :: n in r.callbacks <==> connectedInTime && n in channels)
        && (connectedInTime ==> forall n :: n in channels ==> r.callbacks[n] == callback)
    ensures var (r, tried) := OnClose(c, connectedInTime, channels, callback);
      !tried ==> r.callbacks == c.callbacks && r.exited
  {
  }

  /** `market_order`: nothing for a zero size; otherwise a market order of
      |size| contracts, bought iff the size is positive. */
  function MarketOrder(size: int, productId: int): (r: Option<MarketRequest>)
  {
    if size == 0 then None
    else Some(MarketRequest(productId, if size > 0 then Buy else Sell, if size < 0 then -size else size))
  }

  /** A market order moves the position by exactly `size`, and sending one of
      `-p` flattens a position of `p` just as closing it does. */
  lemma MarketOrderMeaning(size: int, productId: int)
    ensures MarketOrder(size, productId).None? <==> size == 0
    ensures MarketOrder(size, productId).Some? ==>
      var m := MarketOrder(size, productId).value;
      && Effect(m) == size && m.size > 0 && m.productId == productId
      && (m.side == Buy <==> size > 0)
    ensures size != 0 ==>
      MarketOrder(-size, productId) == RestGateway.ClosePositionRequest([RestGateway.Position(productId, size, 0.0, 0.0, 0.0)], productId)
  {
  }

  /** How `market_order` ends once the venue has answered: nothing is sent
      for a zero size, an order the venue filled returns, and an order it
      left partly unfilled makes `place_order` raise `PlaceOrderError`. */
  datatype MarketOutcome =
    | NothingSent
    | Filled(request: MarketRequest)
    | LeftUnfilled(request: MarketRequest, error: Failures.TypedError)

  /** `market_order` followed by `place_order`, given the `unfilled_size`
      the venue reports for the order. */
  function SendMarketOrder(size: int, productId: int, unfilled: int): (r: MarketOutcome)
  {
    match MarketOrder(size, productId)
    case None => NothingSent
    case Some(m) =>
      if unfilled != 0 then LeftUnfilled(m, Failures.Raise(Failures.PlaceOrder, "Delta"))
      else Filled(m)
  }

  /** Only a market order the venue filled completely returns normally, and
      only then has the position moved by `size`; any unfilled part raises
      the 400-coded `PlaceOrderError` for the Delta client. */
  lemma SendMarketOrderMeaning(size: int, productId: int, unfilled: int)
    ensures SendMarketOrder(size, productId, unfilled).NothingSent? <==> size == 0
    ensures SendMarketOrder(size, productId, unfilled).Filled? <==> size != 0 && unfilled == 0
    ensures SendMarketOrder(size, productId, unfilled).LeftUnfilled? <==> size != 0 && unfilled != 0
    ensures var r := SendMarketOrder(size, productId, unfilled);
      !r.NothingSent? ==> Effect(r.request) == size && r.request.productId == productId
    ensures var r := SendMarketOrder(size, productId, unfilled);
      r.LeftUnfilled? ==>
        r.error.kind == Failures.PlaceOrder && r.error.client == "Delta" && r.error.statusCode == 400
  {
    MarketOrderMeaning(size, productId);
  }
}
