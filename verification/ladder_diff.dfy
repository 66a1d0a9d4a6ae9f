/** The ladder diff of the reconciliation engine: a per-level classifier and
    the two-pointer merge that turns a live ladder and a wanted ladder into
    orders to create and orders to delete. Two copies exist in the source:
    the supervisor's (`Current`) and the older standalone bot's (`Legacy`). */
module LadderDiff {
  import opened Orders
  import opened Seqs
  import opened RealArith

  datatype Variant = Current | Legacy

  /** Level cap (`num_levels`) and the percentage thresholds. */
  datatype Config = Config(numLevels: int, sizeThreshold: real, priceThreshold: real)

  /** The standalone bot's thresholds (size 5%, price 0.005%) and default cap 20. */
  const LegacyConfig := Config(20, 5.0, 0.005)

  /** The classifier's return codes 0, 1, 2 and 3. */
  datatype Verdict = Same | PriceMoved | SizeMoved | OldEmpty {
    function Code(): int {
      match this
      case Same => 0
      case PriceMoved => 1
      case SizeMoved => 2
      case OldEmpty => 3
    }
  }

  /** The classifier divides by the live price, and the legacy copy, which has
      no zero-size guard, by the live size as well. */
  predicate Comparable(variant: Variant, live: Order)
  {
    match variant
    case Current => live.size == 0 || live.price != 0.0
    case Legacy => live.size != 0 && live.price != 0.0
  }

  predicate AllComparable(variant: Variant, live: seq<Order>)
  {
    forall k :: 0 <= k < |live| ==> Comparable(variant, live[k])
  }

  /** A list whose members all come from a comparable list is comparable. */
  lemma KeepsComparable(variant: Variant, a: seq<Order>, b: seq<Order>)
    requires forall x :: x in a ==> x in b
    ensures AllComparable(variant, b) ==> AllComparable(variant, a)
  {
    if AllComparable(variant, b) {
      forall k | 0 <= k < |a|
        ensures Comparable(variant, a[k])
      {
        assert a[k] in b;
      }
    }
  }

  /** Percentage changes as the source computes them. */
  function PriceChange(live: Order, wanted: Order): real
    requires live.price != 0.0
  {
    (wanted.price - live.price) * 100.0 / live.price
  }

  function SizeChange(live: Order, wanted: Order): real
    requires live.size != 0
  {
    (wanted.size - live.size) as real * 100.0 / live.size as real
  }

  /** The thresholds restated without division. */
  predicate SizeBeyond(cfg: Config, live: Order, wanted: Order)
  {
    Abs((wanted.size - live.size) as real) * 100.0 > cfg.sizeThreshold * Abs(live.size as real)
  }

  predicate PriceBeyond(cfg: Config, live: Order, wanted: Order)
  {
    Abs(wanted.price - live.price) * 100.0 > cfg.priceThreshold * Abs(live.price)
  }

  predicate PriceAtThreshold(cfg: Config, live: Order, wanted: Order)
  {
    Abs(wanted.price - live.price) * 100.0 == cfg.priceThreshold * Abs(live.price)
  }

  lemma RatioCompare(a: real, b: real, t: real)
    requires b != 0.0
    ensures Abs(a * 100.0 / b) > t <==> Abs(a) * 100.0 > t * Abs(b)
    ensures Abs(a * 100.0 / b) < t <==> Abs(a) * 100.0 < t * Abs(b)
    ensures Abs(a * 100.0 / b) == t <==> Abs(a) * 100.0 == t * Abs(b)
  {
    var x := a * 100.0 / b;
    DivMul(a * 100.0, b);
    assert Abs(x) * Abs(b) == Abs(a) * 100.0;
    var ab := Abs(b);
    assert ab > 0.0;
    if Abs(x) > t {
      MulLt(ab, t, Abs(x));
    } else if Abs(x) < t {
      MulLt(ab, Abs(x), t);
    }
  }

  /** The percentage changes compared with the thresholds, restated. */
  lemma ChangeAgainstThresholds(cfg: Config, live: Order, wanted: Order)
    requires live.price != 0.0 && live.size != 0
    ensures Abs(SizeChange(live, wanted)) > cfg.sizeThreshold <==> SizeBeyond(cfg, live, wanted)
    ensures Abs(PriceChange(live, wanted)) > cfg.priceThreshold <==> PriceBeyond(cfg, live, wanted)
    ensures Abs(PriceChange(live, wanted)) == cfg.priceThreshold <==> PriceAtThreshold(cfg, live, wanted)
  {
    RatioCompare(wanted.price - live.price, live.price, cfg.priceThreshold);
    RatioCompare((wanted.size - live.size) as real, live.size as real, cfg.sizeThreshold);
  }

  /** `diff`. `OldEmpty` only in the current copy, for a live size of 0;
      otherwise `SizeMoved` when the size moved beyond its threshold while the
      price stayed within its own (strictly within, in the legacy copy);
      else `PriceMoved` when the price moved beyond its threshold; else `Same`. */
  function Diff(variant: Variant, cfg: Config, live: Order, wanted: Order): (v: Verdict)
    requires Comparable(variant, live)
    ensures v == OldEmpty <==> variant == Current && live.size == 0
    ensures v == SizeMoved <==>
      && live.size != 0
      && SizeBeyond(cfg, live, wanted)
      && !PriceBeyond(cfg, live, wanted)
      && (variant == Legacy ==> !PriceAtThreshold(cfg, live, wanted))
    ensures v == PriceMoved <==> live.size != 0 && PriceBeyond(cfg, live, wanted)
  {
    if variant == Current && live.size == 0 then OldEmpty
    else
      var changePrice := PriceChange(live, wanted);
      var changeSize := SizeChange(live, wanted);
      ChangeAgainstThresholds(cfg, live, wanted);
      var priceSteady :=
        if variant == Current then Abs(changePrice) <= cfg.priceThreshold
        else Abs(changePrice) < cfg.priceThreshold;
      if Abs(changeSize) > cfg.sizeThreshold && priceSteady then SizeMoved
      else if Abs(changePrice) > cfg.priceThreshold then PriceMoved
      else Same
  }

  /** On a price move the wanted level is created first when it is the better
      quote: a higher bid or a lower ask than the live one. */
  predicate WantedIsBetter(side: Side, livePrice: real, wantedPrice: real)
  {
    match side
    case Buy => livePrice < wantedPrice
    case Sell => livePrice > wantedPrice
  }

  /** One step of the merge: what happened to the live order and/or the
      wanted order at the two pointers. */
  datatype Move =
    | Keep(live: Order, wanted: Order)
    | Replace(live: Order, wanted: Order)
    | Create(wanted: Order)
    | Drop(live: Order)

  /** One step of the main loop on live order `l` and wanted level `w`:
      a size move replaces, a price move creates the wanted level first when
      it is the better quote and otherwise drops the live one, and no change
      (or an empty live order) keeps both. */
  function Step(variant: Variant, cfg: Config, side: Side, l: Order, w: Order): (m: Move)
    requires Comparable(variant, l)
    ensures m.Replace? <==> Diff(variant, cfg, l, w) == SizeMoved
    ensures m.Create? <==> Diff(variant, cfg, l, w) == PriceMoved && WantedIsBetter(side, l.price, w.price)
    ensures m.Drop? <==> Diff(variant, cfg, l, w) == PriceMoved && !WantedIsBetter(side, l.price, w.price)
    ensures !m.Drop? ==> m.wanted == w
    ensures !m.Create? ==> m.live == l
  {
    match Diff(variant, cfg, l, w)
    case SizeMoved => Replace(l, w)
    case PriceMoved => if WantedIsBetter(side, l.price, w.price) then Create(w) else Drop(l)
    case _ => Keep(l, w)
  }

  /** Index and level advances of a move: a move that consumes a wanted
      level also counts one level. */
  function LiveAdvance(m: Move): nat { if m.Create? then 0 else 1 }
  function WantedAdvance(m: Move): nat { if m.Drop? then 0 else 1 }

  /** `calculate_orders_diff` as the sequence of moves its loops make, from
      pointers `i`, `j` and level count `level`. The main loop runs while both
      ladders have entries and the cap is not reached; then every remaining
      live order is dropped; then wanted levels are created up to the cap. */
  function Trace(variant: Variant, cfg: Config, side: Side, live: seq<Order>, wanted: seq<Order>,
                 i: nat, j: nat, level: int): seq<Move>
    requires i <= |live| && j <= |wanted|
    requires AllComparable(variant, live)
    decreases |live| - i + |wanted| - j
  {
    if i < |live| && j < |wanted| && level < cfg.numLevels then
      var m := Step(variant, cfg, side, live[i], wanted[j]);
      [m] + Trace(variant, cfg, side, live, wanted, i + LiveAdvance(m), j + WantedAdvance(m), level + WantedAdvance(m))
    else if i < |live| then
      [Drop(live[i])] + Trace(variant, cfg, side, live, wanted, i + 1, j, level)
    else if j < |wanted| && level < cfg.numLevels then
      [Create(wanted[j])] + Trace(variant, cfg, side, live, wanted, i, j + 1, level + 1)
    else
      []
  }

  // Projections of a trace.

  function LiveOf(m: Move): seq<Order>
  {
    match m
    case Keep(l, _) => [l]
    case Replace(l, _) => [l]
    case Create(_) => []
    case Drop(l) => [l]
  }

  function WantedOf(m: Move): seq<Order>
  {
    match m
    case Keep(_, w) => [w]
    case Replace(_, w) => [w]
    case Create(w) => [w]
    case Drop(_) => []
  }

  function CreatedOf(m: Move): seq<Order>
  {
    match m
    case Replace(_, w) => [w]
    case Create(w) => [w]
    case _ => []
  }

  function DeletedOf(m: Move): seq<Order>
  {
    match m
    case Replace(l, _) => [l]
    case Drop(l) => [l]
    case _ => []
  }

  function KeptOf(m: Move): seq<Order>
  {
    match m
    case Keep(l, _) => [l]
    case _ => []
  }

  /** Live orders in the order the merge visited them. */
  function LiveSide(t: seq<Move>): seq<Order>
  {
    if |t| == 0 then [] else LiveOf(t[0]) + LiveSide(t[1..])
  }

  /** Wanted levels in the order the merge visited them. */
  function WantedSide(t: seq<Move>): seq<Order>
  {
    if |t| == 0 then [] else WantedOf(t[0]) + WantedSide(t[1..])
  }

  function Creates(t: seq<Move>): seq<Order>
  {
    if |t| == 0 then [] else CreatedOf(t[0]) + Creates(t[1..])
  }

  function Deletes(t: seq<Move>): seq<Order>
  {
    if |t| == 0 then [] else DeletedOf(t[0]) + Deletes(t[1..])
  }

  /** Live orders left in place (the unchanged levels). */
  function Kept(t: seq<Move>): seq<Order>
  {
    if |t| == 0 then [] else KeptOf(t[0]) + Kept(t[1..])
  }

  /** Each projection distributes over a trace's head. */
  lemma ProjectLive(m: Move, rest: seq<Move>)
    ensures LiveSide([m] + rest) == LiveOf(m) + LiveSide(rest)
  {
    assert ([m] + rest)[1..] == rest;
  }

  lemma ProjectWanted(m: Move, rest: seq<Move>)
    ensures WantedSide([m] + rest) == WantedOf(m) + WantedSide(rest)
  {
    assert ([m] + rest)[1..] == rest;
  }

  lemma ProjectCreates(m: Move, rest: seq<Move>)
    ensures Creates([m] + rest) == CreatedOf(m) + Creates(rest)
  {
    assert ([m] + rest)[1..] == rest;
  }

  lemma ProjectDeletes(m: Move, rest: seq<Move>)
    ensures Deletes([m] + rest) == DeletedOf(m) + Deletes(rest)
  {
    assert ([m] + rest)[1..] == rest;
  }

  lemma ProjectKept(m: Move, rest: seq<Move>)
    ensures Kept([m] + rest) == KeptOf(m) + Kept(rest)
  {
    assert ([m] + rest)[1..] == rest;
  }

  datatype DiffResult = DiffResult(create: seq<Order>, delete: seq<Order>)

  /** `calculate_orders_diff`. */
  function CalculateOrdersDiff(variant: Variant, cfg: Config, side: Side,
                               live: seq<Order>, wanted: seq<Order>): DiffResult
    requires AllComparable(variant, live)
  {
    var t := Trace(variant, cfg, side, live, wanted, 0, 0, 0);
    DiffResult(Creates(t), Deletes(t))
  }

  /** Number of wanted levels the merge visits from `j` with `level` levels counted. */
  function Room(remaining: int, capLeft: int): int
  {
    if capLeft <= 0 then 0 else Min(remaining, capLeft)
  }

  /** Unfolding of one trace step, stated once so that the inductive lemmas
      need not unfold `Trace` themselves. */
  lemma TraceStep(variant: Variant, cfg: Config, side: Side,
                  live: seq<Order>, wanted: seq<Order>, i: nat, j: nat, level: int)
    returns (m: Move)
    requires i <= |live| && j <= |wanted|
    requires AllComparable(variant, live)
    requires i < |live| || (j < |wanted| && level < cfg.numLevels)
    ensures m == if i < |live| && j < |wanted| && level < cfg.numLevels then Step(variant, cfg, side, live[i], wanted[j])
                 else if i < |live| then Drop(live[i]) else Create(wanted[j])
    ensures i + LiveAdvance(m) <= |live| && j + WantedAdvance(m) <= |wanted|
    ensures !m.Create? ==> i < |live| && m.live == live[i]
    ensures !m.Drop? ==> j < |wanted| && m.wanted == wanted[j] && level < cfg.numLevels
    ensures Trace(variant, cfg, side, live, wanted, i, j, level)
            == [m] + Trace(variant, cfg, side, live, wanted, i + LiveAdvance(m), j + WantedAdvance(m), level + WantedAdvance(m))
  {
    m := if i < |live| && j < |wanted| && level < cfg.numLevels then Step(variant, cfg, side, live[i], wanted[j])
         else if i < |live| then Drop(live[i]) else Create(wanted[j]);
  }

  /** The merge visits every live order from `i` exactly once, in order. */
  lemma {:induction false} TraceVisitsLive(variant: Variant, cfg: Config, side: Side,
                                           live: seq<Order>, wanted: seq<Order>, i: nat, j: nat, level: int)
    requires i <= |live| && j <= |wanted|
    requires AllComparable(variant, live)
    ensures LiveSide(Trace(variant, cfg, side, live, wanted, i, j, level)) == live[i..]
    decreases |live| - i + |wanted| - j
  {
    if i < |live| || (j < |wanted| && level < cfg.numLevels) {
      var m := TraceStep(variant, cfg, side, live, wanted, i, j, level);
      var i', j', level' := i + LiveAdvance(m), j + WantedAdvance(m), level + WantedAdvance(m);
      TraceVisitsLive(variant, cfg, side, live, wanted, i', j', level');
      LiveStep(m, Trace(variant, cfg, side, live, wanted, i', j', level'), live, i);
    }
  }

  lemma LiveStep(m: Move, rest: seq<Move>, live: seq<Order>, i: nat)
    requires i + LiveAdvance(m) <= |live|
    requires !m.Create? ==> i < |live| && m.live == live[i]
    requires LiveSide(rest) == live[i + LiveAdvance(m)..]
    ensures LiveSide([m] + rest) == live[i..]
  {
    ProjectLive(m, rest);
    if !m.Create? {
      assert live[i..] == [live[i]] + live[i + 1..];
    }
  }

  /** The wanted levels the merge visits from `j` are the next ones, in order. */
  lemma {:induction false} TraceWantedPrefix(variant: Variant, cfg: Config, side: Side,
                                             live: seq<Order>, wanted: seq<Order>, i: nat, j: nat, level: int)
    requires i <= |live| && j <= |wanted|
    requires AllComparable(variant, live)
    ensures var w := WantedSide(Trace(variant, cfg, side, live, wanted, i, j, level));
      j + |w| <= |wanted| && w == wanted[j..j + |w|]
    decreases |live| - i + |wanted| - j
  {
    if i < |live| || (j < |wanted| && level < cfg.numLevels) {
      var m := TraceStep(variant, cfg, side, live, wanted, i, j, level);
      var i', j', level' := i + LiveAdvance(m), j + WantedAdvance(m), level + WantedAdvance(m);
      TraceWantedPrefix(variant, cfg, side, live, wanted, i', j', level');
      WantedStep(m, Trace(variant, cfg, side, live, wanted, i', j', level'), wanted, j);
    }
  }

  lemma WantedStep(m: Move, rest: seq<Move>, wanted: seq<Order>, j: nat)
    requires !m.Drop? ==> j < |wanted| && m.wanted == wanted[j]
    requires var k := j + WantedAdvance(m);
      k + |WantedSide(rest)| <= |wanted| && WantedSide(rest) == wanted[k..k + |WantedSide(rest)|]
    ensures var w := WantedSide([m] + rest);
      j + |w| <= |wanted| && w == wanted[j..j + |w|]
  {
    ProjectWanted(m, rest);
    var n := |WantedSide([m] + rest)|;
    if !m.Drop? {
      assert wanted[j..j + n] == [wanted[j]] + wanted[j + 1..j + n];
    }
  }

  /** The merge visits `Room` wanted levels: all that remain, up to the cap. */
  lemma {:induction false} TraceWantedCount(variant: Variant, cfg: Config, side: Side,
                                            live: seq<Order>, wanted: seq<Order>, i: nat, j: nat, level: int)
    requires i <= |live| && j <= |wanted|
    requires AllComparable(variant, live)
    ensures |WantedSide(Trace(variant, cfg, side, live, wanted, i, j, level))| == Room(|wanted| - j, cfg.numLevels - level)
    decreases |live| - i + |wanted| - j
  {
    if i < |live| || (j < |wanted| && level < cfg.numLevels) {
      var m := TraceStep(variant, cfg, side, live, wanted, i, j, level);
      var i', j', level' := i + LiveAdvance(m), j + WantedAdvance(m), level + WantedAdvance(m);
      TraceWantedCount(variant, cfg, side, live, wanted, i', j', level');
      ProjectWanted(m, Trace(variant, cfg, side, live, wanted, i', j', level'));
    }
  }

  /** In any trace, deletes are an in-order subsequence of the visited live
      orders and creates of the visited wanted levels. */
  lemma {:induction false} ProjectionsOrdered(t: seq<Move>)
    ensures IsSubsequence(Deletes(t), LiveSide(t))
    ensures IsSubsequence(Creates(t), WantedSide(t))
    decreases |t|
  {
    if |t| > 0 {
      var m, rest := t[0], t[1..];
      assert t == [m] + rest;
      ProjectionsOrdered(rest);
      ProjectLive(m, rest);
      ProjectWanted(m, rest);
      ProjectCreates(m, rest);
      ProjectDeletes(m, rest);
      ExtendSubsequence(DeletedOf(m), LiveOf(m), Deletes(rest), LiveSide(rest));
      ExtendSubsequence(CreatedOf(m), WantedOf(m), Creates(rest), WantedSide(rest));
    }
  }

  /** The visited live orders split into kept and deleted ones; each visited
      wanted level is either kept or created. */
  lemma {:induction false} ProjectionsSplit(t: seq<Move>)
    ensures multiset(LiveSide(t)) == multiset(Kept(t)) + multiset(Deletes(t))
    ensures |WantedSide(t)| == |Creates(t)| + |Kept(t)|
    decreases |t|
  {
    if |t| > 0 {
      var m, rest := t[0], t[1..];
      assert t == [m] + rest;
      ProjectionsSplit(rest);
      ProjectLive(m, rest);
      ProjectWanted(m, rest);
      ProjectCreates(m, rest);
      ProjectDeletes(m, rest);
      ProjectKept(m, rest);
      MoveSplits(m);
    }
  }

  lemma MoveSplits(m: Move)
    ensures multiset(LiveOf(m)) == multiset(KeptOf(m)) + multiset(DeletedOf(m))
    ensures |WantedOf(m)| == |CreatedOf(m)| + |KeptOf(m)|
  {
  }

  /** Every live order ends up exactly once, either kept or deleted, and the
      deletes keep the live ladder's order. */
  lemma DiffAccountsForEveryLiveOrder(variant: Variant, cfg: Config, side: Side,
                                      live: seq<Order>, wanted: seq<Order>)
    requires AllComparable(variant, live)
    ensures var t := Trace(variant, cfg, side, live, wanted, 0, 0, 0);
      && LiveSide(t) == live
      && multiset(Kept(t)) + multiset(CalculateOrdersDiff(variant, cfg, side, live, wanted).delete) == multiset(live)
      && IsSubsequence(CalculateOrdersDiff(variant, cfg, side, live, wanted).delete, live)
  {
    var t := Trace(variant, cfg, side, live, wanted, 0, 0, 0);
    TraceVisitsLive(variant, cfg, side, live, wanted, 0, 0, 0);
    ProjectionsOrdered(t);
    ProjectionsSplit(t);
    assert live[0..] == live;
  }

  /** Creates are an order-preserving subsequence of the wanted ladder, and
      created plus unchanged levels never exceed the level cap: exactly the
      first `min(|wanted|, num_levels)` wanted levels are visited. */
  lemma DiffRespectsLevelCap(variant: Variant, cfg: Config, side: Side,
                             live: seq<Order>, wanted: seq<Order>)
    requires AllComparable(variant, live)
    ensures var t := Trace(variant, cfg, side, live, wanted, 0, 0, 0);
      var create := CalculateOrdersDiff(variant, cfg, side, live, wanted).create;
      && WantedSide(t) == wanted[..Room(|wanted|, cfg.numLevels)]
      && IsSubsequence(create, wanted)
      && |create| + |Kept(t)| == Room(|wanted|, cfg.numLevels)
      && |create| + |Kept(t)| <= Max(cfg.numLevels, 0)
  {
    var t := Trace(variant, cfg, side, live, wanted, 0, 0, 0);
    TraceWantedPrefix(variant, cfg, side, live, wanted, 0, 0, 0);
    TraceWantedCount(variant, cfg, side, live, wanted, 0, 0, 0);
    var room := Room(|wanted|, cfg.numLevels);
    var w := WantedSide(t);
    assert w == wanted[..room];
    ProjectionsOrdered(t);
    ProjectionsSplit(t);
    SubsequenceOfPrefix(Creates(t), wanted, room);
  }

  /** What each move of a trace is justified by. A kept level had a live size
      of 0 (current copy only), or moved by no more than the price threshold
      and, unless the legacy copy sat exactly on the price threshold, by no
      more than the size threshold. A replaced level kept its price slot while
      its size moved beyond the threshold. */
  predicate Justified(variant: Variant, cfg: Config, m: Move)
  {
    && (m.Keep? ==>
          (variant == Current && m.live.size == 0)
          || (!PriceBeyond(cfg, m.live, m.wanted)
              && (!SizeBeyond(cfg, m.live, m.wanted) || (variant == Legacy && PriceAtThreshold(cfg, m.live, m.wanted)))))
    && (m.Replace? ==> SizeBeyond(cfg, m.live, m.wanted) && !PriceBeyond(cfg, m.live, m.wanted))
  }

  lemma StepJustified(variant: Variant, cfg: Config, side: Side, l: Order, w: Order)
    requires Comparable(variant, l)
    ensures Justified(variant, cfg, Step(variant, cfg, side, l, w))
  {
  }

  lemma {:induction false} TraceMovesJustified(variant: Variant, cfg: Config, side: Side,
                                               live: seq<Order>, wanted: seq<Order>, i: nat, j: nat, level: int)
    requires i <= |live| && j <= |wanted|
    requires AllComparable(variant, live)
    ensures var t := Trace(variant, cfg, side, live, wanted, i, j, level);
      forall k :: 0 <= k < |t| ==> Justified(variant, cfg, t[k])
    decreases |live| - i + |wanted| - j
  {
    if i < |live| || (j < |wanted| && level < cfg.numLevels) {
      var m := TraceStep(variant, cfg, side, live, wanted, i, j, level);
      var i', j', level' := i + LiveAdvance(m), j + WantedAdvance(m), level + WantedAdvance(m);
      TraceMovesJustified(variant, cfg, side, live, wanted, i', j', level');
      if i < |live| && j < |wanted| && level < cfg.numLevels {
        StepJustified(variant, cfg, side, live[i], wanted[j]);
      }
      var t := Trace(variant, cfg, side, live, wanted, i, j, level);
      assert Justified(variant, cfg, m);
      assert forall k :: 1 <= k < |t| ==> t[k] == Trace(variant, cfg, side, live, wanted, i', j', level')[k - 1];
    }
  }

  /** Diffing a ladder against itself changes nothing as long as it fits
      under the cap and the thresholds are not negative. */
  lemma {:induction false} IdenticalLaddersNeedNoChange(variant: Variant, cfg: Config, side: Side, ladder: seq<Order>)
    requires AllComparable(variant, ladder)
    requires |ladder| <= cfg.numLevels
    requires cfg.sizeThreshold >= 0.0 && cfg.priceThreshold >= 0.0
    ensures CalculateOrdersDiff(variant, cfg, side, ladder, ladder) == DiffResult([], [])
  {
    IdenticalSuffixUnchanged(variant, cfg, side, ladder, 0);
  }

  lemma {:induction false} IdenticalSuffixUnchanged(variant: Variant, cfg: Config, side: Side, ladder: seq<Order>, i: nat)
    requires AllComparable(variant, ladder)
    requires i <= |ladder| <= cfg.numLevels
    requires cfg.sizeThreshold >= 0.0 && cfg.priceThreshold >= 0.0
    ensures var t := Trace(variant, cfg, side, ladder, ladder, i, i, i);
      Creates(t) == [] && Deletes(t) == []
    decreases |ladder| - i
  {
    if i < |ladder| {
      var o := ladder[i];
      assert !PriceBeyond(cfg, o, o) && !SizeBeyond(cfg, o, o);
      var m := Step(variant, cfg, side, o, o);
      assert m == Keep(o, o);
      IdenticalSuffixUnchanged(variant, cfg, side, ladder, i + 1);
      ProjectCreates(m, Trace(variant, cfg, side, ladder, ladder, i + 1, i + 1, i + 1));
      ProjectDeletes(m, Trace(variant, cfg, side, ladder, ladder, i + 1, i + 1, i + 1));
    }
  }
}
