/** The venue REST client of the legacy bot: the retry loop every endpoint
    shares, the token guard, and the pure parts of `get_ticker`,
    `close_position`, `get_position` and `get_price_history`. The HTTP
    exchange is replaced by the finite list of status codes the venue answers
    with, one per request. */
module RestGateway {
  import opened Wrappers
  import opened Orders
  import opened DeltaUtility
  import opened RealArith

  /** What the client does after a response other than 200. */
  datatype Reaction = Reauthenticate | Sleep(seconds: int) | RetryAtOnce

  /** `int(status / 100) == 4`: true division, then truncation. */
  predicate IsClientError(status: int)
  {
    Trunc(status as real / 100.0) == 4
  }

  /** The 4xx test is exactly the range 400..499. */
  lemma ClientErrorRange(status: int)
    ensures IsClientError(status) <==> 400 <= status < 500
  {
    var x := status as real / 100.0;
    assert status as real == 100.0 * x;
    if status < 0 {
      assert x < 0.0;
    }
  }

  function ReactionTo(status: int): Reaction
  {
    if status == 401 then Reauthenticate
    else if IsClientError(status) then Sleep(2)
    else RetryAtOnce
  }

  /** 401 re-authenticates without sleeping, another 4xx sleeps two seconds,
      anything else is retried at once. */
  lemma ReactionMeaning(status: int)
    ensures ReactionTo(status) == Reauthenticate <==> status == 401
    ensures ReactionTo(status) == Sleep(2) <==> 400 <= status < 500 && status != 401
    ensures ReactionTo(status) == RetryAtOnce <==> !(400 <= status < 500)
  {
    ClientErrorRange(status);
  }

  /** How a call ends. `Answered(k)`: the `k`-th response was a 200.
      `GaveUp(s)`: the attempts ran out and `Error.<s> Try again later` is
      raised. `NeverSent`: the counter started at zero or below, so the raise
      finds no response to report. `NotAuthenticated`: the token guard
      raised. `StillRetrying`: the responses listed ran out while the loop
      was still going. */
  datatype Outcome =
    | Answered(attempt: nat)
    | GaveUp(lastStatus: int)
    | NeverSent
    | NotAuthenticated
    | TooManyDataPoints
    | ZeroResolution
    | StillRetrying

  /** The outcome and what the client did after each failed request. */
  datatype Reply = Reply(outcome: Outcome, reactions: seq<Reaction>)

  /** The loop from the `i`-th response on, with `left` attempts to go. */
  function Attempts(statuses: seq<int>, i: nat, left: int, decrements: bool): Reply
    requires i <= |statuses| && left > 0
    decreases |statuses| - i
  {
    if i == |statuses| then Reply(StillRetrying, [])
    else if statuses[i] == 200 then Reply(Answered(i), [])
    else
      var next := if decrements then left - 1 else left;
      var rest := if next > 0 then Attempts(statuses, i + 1, next, decrements) else Reply(GaveUp(statuses[i]), []);
      Reply(rest.outcome, [ReactionTo(statuses[i])] + rest.reactions)
  }

  /** The `while retry_count > 0` loop. `decrements` is false for the three
      endpoints that never count an attempt down. */
  function Exchange(statuses: seq<int>, retryCount: int, decrements: bool): Reply
  {
    if retryCount <= 0 then Reply(NeverSent, []) else Attempts(statuses, 0, retryCount, decrements)
  }

  predicate NoOkIn(statuses: seq<int>, from: int, to: int)
    requires 0 <= from && to <= |statuses|
  {
    forall j :: from <= j < to ==> statuses[j] != 200
  }

  /** The failed responses `from..from+n` and the client's reaction to each. */
  predicate ReactedTo(reactions: seq<Reaction>, statuses: seq<int>, from: nat)
  {
    from + |reactions| <= |statuses| &&
    forall m :: 0 <= m < |reactions| ==> FailedWith(statuses[from + m], reactions[m])
  }

  /** A failed response and the client's reaction to it. */
  predicate FailedWith(status: int, reaction: Reaction)
  {
    status != 200 && reaction == ReactionTo(status)
  }

  /** The three ways the loop from `i` can end, each with the responses it
      consumed. */
  lemma {:induction false} AttemptsMeaning(statuses: seq<int>, i: nat, left: int, decrements: bool)
    requires i <= |statuses| && left > 0
    ensures var r := Attempts(statuses, i, left, decrements);
      && ReactedTo(r.reactions, statuses, i)
      && (r.outcome.Answered? || r.outcome.GaveUp? || r.outcome.StillRetrying?)
      && (r.outcome.Answered? ==>
            && i <= r.outcome.attempt < |statuses| && statuses[r.outcome.attempt] == 200
            && (decrements ==> r.outcome.attempt < i + left)
            && |r.reactions| == r.outcome.attempt - i)
      && (r.outcome.GaveUp? ==>
            && decrements && i + left <= |statuses|
            && r.outcome.lastStatus == statuses[i + left - 1]
            && |r.reactions| == left)
      && (r.outcome.StillRetrying? ==>
            && (decrements ==> |statuses| < i + left)
            && |r.reactions| == |statuses| - i)
    decreases |statuses| - i
  {
    if i < |statuses| && statuses[i] != 200 {
      var next := if decrements then left - 1 else left;
      var rest := if next > 0 then Attempts(statuses, i + 1, next, decrements) else Reply(GaveUp(statuses[i]), []);
      if next > 0 {
        AttemptsMeaning(statuses, i + 1, next, decrements);
      }
      assert ReactedTo(rest.reactions, statuses, i + 1);
      ReactedCons(statuses, i, rest.reactions);
      assert Attempts(statuses, i, left, decrements).reactions == [ReactionTo(statuses[i])] + rest.reactions;
    }
  }

  /** A failed response followed by reactions from the next one. */
  lemma ReactedCons(statuses: seq<int>, i: nat, rest: seq<Reaction>)
    requires i < |statuses| && statuses[i] != 200
    requires ReactedTo(rest, statuses, i + 1)
    ensures ReactedTo([ReactionTo(statuses[i])] + rest, statuses, i)
  {
    var rs := [ReactionTo(statuses[i])] + rest;
    forall m | 0 <= m < |rs|
      ensures FailedWith(statuses[i + m], rs[m])
    {
      if m > 0 {
        var k := m - 1;
        assert rs[m] == rest[k];
        assert FailedWith(statuses[(i + 1) + k], rest[k]);
        assert (i + 1) + k == i + m;
      }
    }
    assert i + |rs| <= |statuses|;
    assert ReactedTo(rs, statuses, i);
  }

  /** With a counter, the call gives up after `retryCount` failed requests,
      reporting the last status; it is answered by the first 200 among them;
      and it never sends more than `retryCount` requests. */
  lemma CountedExchange(statuses: seq<int>, retryCount: int)
    requires retryCount > 0
    ensures var r := Exchange(statuses, retryCount, true);
      && ReactedTo(r.reactions, statuses, 0)
      && |r.reactions| + (if r.outcome.Answered? then 1 else 0) <= retryCount
      && (r.outcome.Answered? <==> exists k :: 0 <= k < retryCount && k < |statuses| && statuses[k] == 200)
      && (r.outcome.Answered? ==>
            r.outcome.attempt < |statuses| && statuses[r.outcome.attempt] == 200 && NoOkIn(statuses, 0, r.outcome.attempt))
      && (r.outcome.GaveUp? <==> retryCount <= |statuses| && NoOkIn(statuses, 0, retryCount))
      && (r.outcome.GaveUp? ==> r.outcome.lastStatus == statuses[retryCount - 1])
      && (r.outcome.StillRetrying? <==> |statuses| < retryCount && NoOkIn(statuses, 0, |statuses|))
  {
    AttemptsMeaning(statuses, 0, retryCount, true);
    var r := Exchange(statuses, retryCount, true);
    assert ReactedTo(r.reactions, statuses, 0);
    if r.outcome.Answered? {
      assert NoOkIn(statuses, 0, r.outcome.attempt) by {
        forall j | 0 <= j < r.outcome.attempt ensures statuses[j] != 200 {
          assert r.reactions[j] == ReactionTo(statuses[0 + j]);
        }
      }
    } else {
      forall k | 0 <= k < |r.reactions| ensures statuses[k] != 200 {
        assert r.reactions[k] == ReactionTo(statuses[0 + k]);
      }
    }
  }

  /** Without a counter (`get_wallet`, `get_availableMargin`,
      `get_marked_price`) the call never gives up: it is answered by the
      first 200, and as long as none comes it keeps sending requests,
      however many failures have been seen. */
  lemma UncountedExchange(statuses: seq<int>, retryCount: int)
    requires retryCount > 0
    ensures var r := Exchange(statuses, retryCount, false);
      && ReactedTo(r.reactions, statuses, 0)
      && !r.outcome.GaveUp?
      && (r.outcome.Answered? <==> 200 in statuses)
      && (r.outcome.Answered? ==>
            r.outcome.attempt < |statuses| && statuses[r.outcome.attempt] == 200 && NoOkIn(statuses, 0, r.outcome.attempt))
      && (r.outcome.StillRetrying? ==> |r.reactions| == |statuses|)
  {
    AttemptsMeaning(statuses, 0, retryCount, false);
    var r := Exchange(statuses, retryCount, false);
    assert ReactedTo(r.reactions, statuses, 0);
    if r.outcome.Answered? {
      assert NoOkIn(statuses, 0, r.outcome.attempt) by {
        forall j | 0 <= j < r.outcome.attempt ensures statuses[j] != 200 {
          assert r.reactions[j] == ReactionTo(statuses[0 + j]);
        }
      }
    } else {
      forall k | 0 <= k < |statuses| ensures statuses[k] != 200 {
        assert r.reactions[k] == ReactionTo(statuses[0 + k]);
      }
    }
  }

  /** With the counter at zero or below no request is sent at all. */
  lemma NoAttemptWithoutCount(statuses: seq<int>, retryCount: int, decrements: bool)
    ensures Exchange(statuses, retryCount, decrements).outcome == NeverSent <==> retryCount <= 0
    ensures retryCount <= 0 ==> Exchange(statuses, retryCount, decrements).reactions == []
  {
    if retryCount > 0 {
      AttemptsMeaning(statuses, 0, retryCount, decrements);
    }
  }

  /** Four failing responses to a counter of three: the counted loop gives up
      after the third, the uncounted one goes on to the fourth. */
  lemma UncountedRetriesExample()
    ensures Exchange([503, 503, 503, 503], 3, true) == Reply(GaveUp(503), [RetryAtOnce, RetryAtOnce, RetryAtOnce])
    ensures Exchange([503, 503, 503, 503], 3, false).outcome == StillRetrying
    ensures |Exchange([503, 503, 503, 503], 3, false).reactions| == 4
  {
    ReactionMeaning(503);
    UncountedExchange([503, 503, 503, 503], 3);
  }

  /** The endpoints of the client. */
  datatype Endpoint =
    | GetProduct | BatchCreate | CreateOrder | BatchCancel | GetOrders | GetL2Orders
    | GetWallet | GetAvailableMargin | GetPriceHistory | GetMarkedPrice
    | ClosePosition | GetPosition | SetLeverage

  /** All but the two public market-data endpoints check the token first. */
  predicate NeedsToken(e: Endpoint)
  {
    !(e == GetProduct || e == GetL2Orders)
  }

  /** Three endpoints forget `retry_count -= 1`. */
  predicate CountsAttempts(e: Endpoint)
  {
    !(e == GetWallet || e == GetAvailableMargin || e == GetMarkedPrice)
  }

  /** `if not self.token`: a missing or empty token. */
  predicate HasToken(token: Option<string>)
  {
    token.Some? && token.value != ""
  }

  /** One call of an endpoint other than `get_price_history`. */
  function Call(e: Endpoint, token: Option<string>, statuses: seq<int>, retryCount: int): (r: Reply)
  {
    if NeedsToken(e) && !HasToken(token) then Reply(NotAuthenticated, [])
    else Exchange(statuses, retryCount, CountsAttempts(e))
  }

  /** The token guard raises before any request is sent; a call that passes
      it never reports a missing token, and it can give up only on an
      endpoint that counts its attempts. */
  lemma CallMeaning(e: Endpoint, token: Option<string>, statuses: seq<int>, retryCount: int)
    ensures Call(e, token, statuses, retryCount).outcome == NotAuthenticated <==> NeedsToken(e) && !HasToken(token)
    ensures Call(e, token, statuses, retryCount).outcome == NotAuthenticated ==> Call(e, token, statuses, retryCount).reactions == []
    ensures Call(e, token, statuses, retryCount).outcome.GaveUp? ==> CountsAttempts(e)
  {
    if !(NeedsToken(e) && !HasToken(token)) && retryCount > 0 {
      AttemptsMeaning(statuses, 0, retryCount, CountsAttempts(e));
    }
  }

  /** `get_price_history`: the token guard, then the data-point guard
      (`duration / resolution >= 500`, true division), then the loop. */
  function PriceHistory(token: Option<string>, duration: real, resolution: real,
                        statuses: seq<int>, retryCount: int): (r: Reply)
  {
    if !HasToken(token) then Reply(NotAuthenticated, [])
    else if resolution == 0.0 then Reply(ZeroResolution, [])
    else if duration / resolution >= 500.0 then Reply(TooManyDataPoints, [])
    else Exchange(statuses, retryCount, true)
  }

  /** The query window: `duration` minutes ending at `now` (in seconds). */
  function HistoryWindow(now: real, duration: real): (w: (real, real))
    ensures w.1 == now && w.1 - w.0 == duration * 60.0
  {
    (now - duration * 60.0, now)
  }

  /** A history request of 500 points or more is refused before any request
      is sent; a smaller one goes through the counted loop, and for a
      positive resolution its query window, ending now, spans fewer than 500
      bars of `resolution` minutes. */
  lemma PriceHistoryGuard(token: Option<string>, duration: real, resolution: real,
                          statuses: seq<int>, retryCount: int, now: real)
    requires HasToken(token) && resolution != 0.0
    ensures (PriceHistory(token, duration, resolution, statuses, retryCount).outcome == TooManyDataPoints)
      <==> duration / resolution >= 500.0
    ensures (PriceHistory(token, duration, resolution, statuses, retryCount).outcome == TooManyDataPoints)
      ==> PriceHistory(token, duration, resolution, statuses, retryCount).reactions == []
    ensures var w := HistoryWindow(now, duration);
      resolution > 0.0 && PriceHistory(token, duration, resolution, statuses, retryCount).outcome != TooManyDataPoints
      ==> w.1 == now && w.1 - w.0 < 500.0 * (resolution * 60.0)
  {
    if duration / resolution < 500.0 && retryCount > 0 {
      AttemptsMeaning(statuses, 0, retryCount, true);
    }
    if resolution > 0.0 && duration / resolution < 500.0 {
      DivMul(duration, resolution);
      MulLt(resolution, duration / resolution, 500.0);
      MulLt(60.0, duration, 500.0 * resolution);
    }
  }

  /** Level-2 book prices as the venue lists them, best first. */
  datatype L2Book = L2Book(buyBook: seq<real>, sellBook: seq<real>)

  /** Best bid, and best ask where `None` stands for `Decimal('inf')`. */
  datatype Ticker = Ticker(bestBuy: real, bestSell: Option<real>)

  /** `get_ticker`: the head of each book; an empty bid book gives 0 and an
      empty ask book gives infinity. */
  function GetTicker(book: L2Book): (t: Ticker)
    ensures |book.buyBook| > 0 ==> t.bestBuy in book.buyBook
    ensures |book.buyBook| == 0 ==> t.bestBuy == 0.0
    ensures t.bestSell.Some? <==> |book.sellBook| > 0
    ensures t.bestSell.Some? ==> t.bestSell.value in book.sellBook
  {
    Ticker(if |book.buyBook| > 0 then book.buyBook[0] else 0.0,
           if |book.sellBook| > 0 then Some(book.sellBook[0]) else None)
  }

  /** `price <= best_sell` with infinity for a missing ask. */
  predicate AtMostAsk(t: Ticker, price: real)
  {
    t.bestSell.None? || price <= t.bestSell.value
  }

  /** An entry of the positions list. */
  datatype Position = Position(productId: int, size: int, entryPrice: real, margin: real, liquidationPrice: real)

  /** `get_position`: the first position on the product, if any. An empty
      list is falsy and gives `None` as well. */
  function FindPosition(positions: seq<Position>, productId: int): (r: Option<Position>)
    ensures r.None? <==> forall k :: 0 <= k < |positions| ==> positions[k].productId != productId
    ensures r.Some? ==> r.value.productId == productId
    ensures r.Some? ==>
      exists k :: (0 <= k < |positions| && positions[k] == r.value &&
                   forall j :: 0 <= j < k ==> positions[j].productId != productId)
  {
    if |positions| == 0 then None
    else if positions[0].productId == productId then Some(positions[0])
    else
      var r := FindPosition(positions[1..], productId);
      assert forall k :: 1 <= k < |positions| ==> positions[k] == positions[1..][k - 1];
      r
  }

  /** `close_position`: a market order against the first position on the
      product, selling a long and buying back a short (a flat position buys
      zero); nothing when the product has no position. */
  function ClosePositionRequest(positions: seq<Position>, productId: int): (r: Option<MarketRequest>)
  {
    match FindPosition(positions, productId)
    case None => None
    case Some(p) =>
      if p.size > 0 then Some(MarketRequest(productId, Sell, p.size))
      else Some(MarketRequest(productId, Buy, -p.size))
  }

  /** The order sent exactly flattens the position found, and is sent iff one
      is found. */
  lemma ClosePositionFlattens(positions: seq<Position>, productId: int)
    ensures ClosePositionRequest(positions, productId).Some? <==> FindPosition(positions, productId).Some?
    ensures ClosePositionRequest(positions, productId).Some? ==>
      var m := ClosePositionRequest(positions, productId).value;
      && m.productId == productId && m.size >= 0
      && FindPosition(positions, productId).value.size + Effect(m) == 0
  {
  }
}
