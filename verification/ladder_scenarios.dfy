/** The five ladder-diff scenarios of the repository's test script, stated
    against the standalone bot's copy of the diff (thresholds 5% and 0.005%,
    cap 20, product 2, limit orders). */
module LadderScenarios {
  import opened Orders
  import opened DeltaUtility
  import opened LadderDiff

  function Level(side: Side, price: real, size: int): Order
  {
    OrderConvertFormat(price, size, side, 2)
  }

  /** Scenario 1: no live orders, so every wanted level is created. */
  lemma BlankStateCreatesEverything()
    ensures var wanted := [Level(Sell, 6630.0, 12248), Level(Sell, 6630.5, 3000)];
      CalculateOrdersDiff(Legacy, LegacyConfig, Sell, [], wanted) == DiffResult(wanted, [])
  {
    var wanted := [Level(Sell, 6630.0, 12248), Level(Sell, 6630.5, 3000)];
    var t := Trace(Legacy, LegacyConfig, Sell, [], wanted, 0, 0, 0);
    assert t == [Create(wanted[0]), Create(wanted[1])];
  }

  /** Scenario 2: a level whose size moved is replaced, an unchanged level is
      kept, and the extra wanted level is created. */
  lemma ResizedLevelIsReplaced()
    ensures var live := [Level(Sell, 6630.0, 500), Level(Sell, 6630.5, 300)];
      var wanted := [Level(Sell, 6630.0, 12248), Level(Sell, 6630.5, 300), Level(Sell, 6631.0, 30105)];
      CalculateOrdersDiff(Legacy, LegacyConfig, Sell, live, wanted)
        == DiffResult([Level(Sell, 6630.0, 12248), Level(Sell, 6631.0, 30105)], [Level(Sell, 6630.0, 500)])
  {
    var live := [Level(Sell, 6630.0, 500), Level(Sell, 6630.5, 300)];
    var wanted := [Level(Sell, 6630.0, 12248), Level(Sell, 6630.5, 300), Level(Sell, 6631.0, 30105)];
    assert Diff(Legacy, LegacyConfig, live[0], wanted[0]) == SizeMoved;
    assert Diff(Legacy, LegacyConfig, live[1], wanted[1]) == Same;
    var t := Trace(Legacy, LegacyConfig, Sell, live, wanted, 0, 0, 0);
    assert t == [Replace(live[0], wanted[0]), Keep(live[1], wanted[1]), Create(wanted[2])];
  }

  /** Scenario 3: identical bid ladders need no change. */
  lemma SameLevelsNeedNoChange()
    ensures var ladder := [Level(Buy, 6630.0, 12248), Level(Buy, 6630.5, 300), Level(Buy, 6631.0, 30105)];
      CalculateOrdersDiff(Legacy, LegacyConfig, Buy, ladder, ladder) == DiffResult([], [])
  {
    var ladder := [Level(Buy, 6630.0, 12248), Level(Buy, 6630.5, 300), Level(Buy, 6631.0, 30105)];
    IdenticalLaddersNeedNoChange(Legacy, LegacyConfig, Buy, ladder);
  }

  /** Scenario 4: the best ask was filled away, so the live order at that
      price is deleted and the rest are kept. */
  lemma EatenLevelIsDeleted()
    ensures var live := [Level(Sell, 6630.0, 2448), Level(Sell, 6630.5, 600), Level(Sell, 6631.0, 600), Level(Sell, 6632.0, 6000)];
      var wanted := [Level(Sell, 6630.5, 600), Level(Sell, 6631.0, 600), Level(Sell, 6632.0, 6000)];
      CalculateOrdersDiff(Legacy, LegacyConfig, Sell, live, wanted) == DiffResult([], [Level(Sell, 6630.0, 2448)])
  {
    var live := [Level(Sell, 6630.0, 2448), Level(Sell, 6630.5, 600), Level(Sell, 6631.0, 600), Level(Sell, 6632.0, 6000)];
    var wanted := [Level(Sell, 6630.5, 600), Level(Sell, 6631.0, 600), Level(Sell, 6632.0, 6000)];
    assert Diff(Legacy, LegacyConfig, live[0], wanted[0]) == PriceMoved;
    assert Diff(Legacy, LegacyConfig, live[1], wanted[0]) == Same;
    assert Diff(Legacy, LegacyConfig, live[2], wanted[1]) == Same;
    assert Diff(Legacy, LegacyConfig, live[3], wanted[2]) == Same;
    var t := Trace(Legacy, LegacyConfig, Sell, live, wanted, 0, 0, 0);
    assert t == [Drop(live[0]), Keep(live[1], wanted[0]), Keep(live[2], wanted[1]), Keep(live[3], wanted[2])];
  }

  /** Scenario 5: a new ask level between two live ones is created and
      nothing is deleted. */
  lemma InsertedLevelIsCreated()
    ensures var live := [Level(Sell, 6630.0, 2448), Level(Sell, 6631.0, 6020), Level(Sell, 6632.0, 6000), Level(Sell, 6633.5, 35)];
      var wanted := [Level(Sell, 6630.0, 2448), Level(Sell, 6630.5, 3000), Level(Sell, 6631.0, 6020),
                     Level(Sell, 6632.0, 6000), Level(Sell, 6633.5, 35)];
      CalculateOrdersDiff(Legacy, LegacyConfig, Sell, live, wanted) == DiffResult([Level(Sell, 6630.5, 3000)], [])
  {
    var live := [Level(Sell, 6630.0, 2448), Level(Sell, 6631.0, 6020), Level(Sell, 6632.0, 6000), Level(Sell, 6633.5, 35)];
    var wanted := [Level(Sell, 6630.0, 2448), Level(Sell, 6630.5, 3000), Level(Sell, 6631.0, 6020),
                   Level(Sell, 6632.0, 6000), Level(Sell, 6633.5, 35)];
    assert Diff(Legacy, LegacyConfig, live[0], wanted[0]) == Same;
    assert Diff(Legacy, LegacyConfig, live[1], wanted[1]) == PriceMoved;
    assert Diff(Legacy, LegacyConfig, live[1], wanted[2]) == Same;
    assert Diff(Legacy, LegacyConfig, live[2], wanted[3]) == Same;
    assert Diff(Legacy, LegacyConfig, live[3], wanted[4]) == Same;
    var t := Trace(Legacy, LegacyConfig, Sell, live, wanted, 0, 0, 0);
    assert t == [Keep(live[0], wanted[0]), Create(wanted[1]), Keep(live[1], wanted[2]), Keep(live[2], wanted[3]), Keep(live[3], wanted[4])];
  }

  /** In the standalone bot's copy a price move of exactly the threshold
      masks any size move: the level is kept although its size changed by
      50%. The supervisor's copy replaces it. */
  lemma LegacyMasksSizeMoveAtPriceThreshold()
    ensures var live := Level(Sell, 100000.0, 10);
      var wanted := Level(Sell, 100005.0, 15);
      && Diff(Legacy, LegacyConfig, live, wanted) == Same
      && Diff(Current, LegacyConfig, live, wanted) == SizeMoved
  {
    var live := Level(Sell, 100000.0, 10);
    var wanted := Level(Sell, 100005.0, 15);
    assert PriceAtThreshold(LegacyConfig, live, wanted);
    assert SizeBeyond(LegacyConfig, live, wanted);
  }
}
