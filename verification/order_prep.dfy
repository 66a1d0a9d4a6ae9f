/** The ladder preparation steps of the run loop: `merge_levels`,
    `get_top_orders_by_size` and `create_order_format`. Strategy ladders are
    lists of `Level`s (a price and a size in coins). */
module OrderPrep {
  import opened Wrappers
  import opened Orders
  import opened Seqs
  import opened RealArith
  import opened DeltaUtility

  function LevelPrices(ls: seq<Level>): (r: seq<real>)
    ensures |r| == |ls|
    ensures forall k :: 0 <= k < |ls| ==> r[k] == ls[k].price
  {
    seq(|ls|, k requires 0 <= k < |ls| => ls[k].price)
  }

  function LevelSizes(ls: seq<Level>): (r: seq<real>)
    ensures |r| == |ls|
    ensures forall k :: 0 <= k < |ls| ==> r[k] == ls[k].size
  {
    seq(|ls|, k requires 0 <= k < |ls| => ls[k].size)
  }

  /** Total size of a ladder. */
  function TotalSize(ls: seq<Level>): real
  {
    Sum(LevelSizes(ls))
  }

  lemma TotalSizeAppend(a: seq<Level>, b: seq<Level>)
    ensures TotalSize(a + b) == TotalSize(a) + TotalSize(b)
  {
    assert LevelSizes(a + b) == LevelSizes(a) + LevelSizes(b);
    SumConcat(LevelSizes(a), LevelSizes(b));
  }

  lemma TotalSizeOne(x: Level)
    ensures TotalSize([x]) == x.size
  {
    assert LevelSizes([x]) == [x.size];
    assert Sum([x.size]) == x.size + Sum([]);
  }

  /** Adding a level at the end adds its size. */
  lemma TotalSizeSnoc(a: seq<Level>, x: Level)
    ensures TotalSize(a + [x]) == TotalSize(a) + x.size
  {
    TotalSizeAppend(a, [x]);
    TotalSizeOne(x);
  }

  /** Taking the head level off subtracts its size. */
  lemma TotalSizeCons(a: seq<Level>)
    requires |a| > 0
    ensures TotalSize(a) == a[0].size + TotalSize(a[1..])
  {
    assert a == [a[0]] + a[1..];
    TotalSizeAppend([a[0]], a[1..]);
    TotalSizeOne(a[0]);
  }

  predicate NonNegativeSizes(ls: seq<Level>)
  {
    forall k :: 0 <= k < |ls| ==> ls[k].size >= 0.0
  }

  lemma {:induction false} TotalSizeNonNegative(ls: seq<Level>)
    requires NonNegativeSizes(ls)
    ensures TotalSize(ls) >= 0.0
    decreases |ls|
  {
    if |ls| > 0 {
      TotalSizeCons(ls);
      TotalSizeNonNegative(ls[1..]);
    }
  }

  /** A price list with each run of equal adjacent prices collapsed to one. */
  function Collapse(ps: seq<real>): (c: seq<real>)
    decreases |ps|
  {
    if |ps| == 0 then []
    else
      var c := Collapse(ps[..|ps| - 1]);
      if |c| > 0 && c[|c| - 1] == ps[|ps| - 1] then c else c + [ps[|ps| - 1]]
  }

  /** A collapsed price list keeps the order of first appearance of each run,
      holds the same prices, and has no two equal neighbours. */
  lemma {:induction false} CollapseMeaning(ps: seq<real>)
    ensures IsSubsequence(Collapse(ps), ps)
    ensures forall x :: x in Collapse(ps) <==> x in ps
    ensures forall k :: 0 <= k < |Collapse(ps)| - 1 ==> Collapse(ps)[k] != Collapse(ps)[k + 1]
    ensures |ps| > 0 ==> |Collapse(ps)| > 0 && Collapse(ps)[|Collapse(ps)| - 1] == ps[|ps| - 1]
    decreases |ps|
  {
    if |ps| > 0 {
      var init, x := ps[..|ps| - 1], ps[|ps| - 1];
      assert ps == init + [x];
      CollapseMeaning(init);
      var c := Collapse(init);
      if |c| > 0 && c[|c| - 1] == x {
        SubsequenceExtend(c, init, [x]);
      } else {
        SubsequenceSnoc(c, init, x);
      }
    }
  }

  /** The number of levels at the head of a ladder that share its first
      level's price. */
  function RunLength(ls: seq<Level>): (n: nat)
    requires |ls| > 0
    ensures 1 <= n <= |ls|
    ensures forall k :: 0 <= k < n ==> ls[k].price == ls[0].price
    ensures n < |ls| ==> ls[n].price != ls[0].price
    decreases |ls|
  {
    if |ls| == 1 || ls[1].price != ls[0].price then 1 else 1 + RunLength(ls[1..])
  }

  /** The run at the head is the only prefix of equal prices that cannot be
      extended. */
  lemma RunLengthUnique(ls: seq<Level>, n: nat)
    requires 1 <= n <= |ls|
    requires forall k :: 0 <= k < n ==> ls[k].price == ls[0].price
    requires n < |ls| ==> ls[n].price != ls[0].price
    ensures RunLength(ls) == n
  {
  }

  /** A level added at the end extends the head run only when the whole
      ladder is one run at its price. */
  lemma RunLengthSnoc(ls: seq<Level>, x: Level)
    requires |ls| > 0
    ensures RunLength(ls + [x]) ==
      if RunLength(ls) == |ls| && x.price == ls[0].price then |ls| + 1 else RunLength(ls)
  {
    var l := ls + [x];
    var n := RunLength(ls);
    if n == |ls| && x.price == ls[0].price {
      RunLengthUnique(l, |ls| + 1);
    } else {
      RunLengthUnique(l, n);
    }
  }

  /** The merged ladder, run by run: each maximal run of adjacent levels at
      one price becomes a single level carrying the run's total size. */
  function Merge(ls: seq<Level>): seq<Level>
    decreases |ls|
  {
    if |ls| == 0 then []
    else
      var n := RunLength(ls);
      [Level(ls[0].price, TotalSize(ls[..n]))] + Merge(ls[n..])
  }

  /** The merged ladder opens with the head run as one level. */
  lemma MergeHead(ls: seq<Level>)
    requires |ls| > 0
    ensures Merge(ls) == [Level(ls[0].price, TotalSize(ls[..RunLength(ls)]))] + Merge(ls[RunLength(ls)..])
  {
  }

  lemma MergeOne(x: Level)
    ensures Merge([x]) == [x]
  {
    MergeHead([x]);
    assert [x][..1] == [x];
    TotalSizeOne(x);
    assert [x][1..] == [];
  }

  /** Merging a ladder with one more level at the end either adds that
      level's size to the last merged level (same price) or appends it. */
  lemma {:induction false} MergeSnoc(ls: seq<Level>, x: Level)
    ensures Merge(ls + [x]) == SnocMerged(Merge(ls), x)
    decreases |ls|
  {
    if |ls| == 0 {
      assert ls + [x] == [x];
      MergeOne(x);
    } else if RunLength(ls) < |ls| {
      MergeSnocAfterRun(ls, x);
    } else {
      MergeSnocOneRun(ls, x);
    }
  }

  /** The last merged level absorbs a level at its price; otherwise the
      level is appended. */
  function SnocMerged(m: seq<Level>, x: Level): seq<Level>
  {
    if |m| > 0 && m[|m| - 1].price == x.price then m[..|m| - 1] + [Level(x.price, m[|m| - 1].size + x.size)]
    else m + [x]
  }

  lemma {:induction false} MergeSnocAfterRun(ls: seq<Level>, x: Level)
    requires |ls| > 0 && RunLength(ls) < |ls|
    ensures Merge(ls + [x]) == SnocMerged(Merge(ls), x)
    decreases |ls|, 0
  {
    var l := ls + [x];
    var n := RunLength(ls);
    var head := Level(ls[0].price, TotalSize(ls[..n]));
    var m' := Merge(ls[n..]);
    assert Merge(ls) == [head] + m' by { MergeHead(ls); }
    assert |m'| > 0 by { MergeHead(ls[n..]); }
    assert Merge(l) == [head] + SnocMerged(m', x) by {
      RunLengthSnoc(ls, x);
      MergeHead(l);
      assert l[..n] == ls[..n];
      assert l[n..] == ls[n..] + [x];
      MergeSnoc(ls[n..], x);
    }
    SnocMergedCons(head, m', x);
  }

  /** Closed levels in front of the last one are not touched. */
  lemma SnocMergedCons(h: Level, m: seq<Level>, x: Level)
    requires |m| > 0
    ensures SnocMerged([h] + m, x) == [h] + SnocMerged(m, x)
  {
    var w := [h] + m;
    assert w[|w| - 1] == m[|m| - 1];
    assert w[..|w| - 1] == [h] + m[..|m| - 1];
  }

  lemma MergeSnocOneRun(ls: seq<Level>, x: Level)
    requires |ls| > 0 && RunLength(ls) == |ls|
    ensures Merge(ls + [x]) == SnocMerged(Merge(ls), x)
  {
    MergeWholeRun(ls);
    var h := Level(ls[0].price, TotalSize(ls));
    SnocMergedOne(h, x);
    var s := SnocMerged([h], x);
    assert SnocMerged(Merge(ls), x) == s;
    RunLengthSnoc(ls, x);
    if x.price == ls[0].price {
      MergeSnocSamePrice(ls, x, h);
    } else {
      MergeSnocNewPrice(ls, x);
      assert s == [h, x];
    }
  }

  lemma SnocMergedOne(h: Level, x: Level)
    ensures SnocMerged([h], x) == if h.price == x.price then [Level(x.price, h.size + x.size)] else [h, x]
  {
    assert [h][..0] == [];
  }

  lemma MergeSnocSamePrice(ls: seq<Level>, x: Level, h: Level)
    requires |ls| > 0 && RunLength(ls + [x]) == |ls| + 1
    requires h.size == TotalSize(ls)
    ensures Merge(ls + [x]) == [Level(x.price, h.size + x.size)]
  {
    var l := ls + [x];
    MergeWholeRun(l);
    assert l[|ls|] == x;
    TotalSizeSnoc(ls, x);
    assert Level(l[0].price, TotalSize(l)) == Level(x.price, h.size + x.size);
  }

  /** A ladder that is one run merges to a single level. */
  lemma MergeWholeRun(l: seq<Level>)
    requires |l| > 0 && RunLength(l) == |l|
    ensures Merge(l) == [Level(l[0].price, TotalSize(l))]
  {
    MergeHead(l);
    assert l[..|l|] == l;
    assert l[|l|..] == [];
  }

  lemma MergeSnocNewPrice(ls: seq<Level>, x: Level)
    requires |ls| > 0 && RunLength(ls + [x]) == |ls|
    ensures Merge(ls + [x]) == [Level(ls[0].price, TotalSize(ls)), x]
  {
    var l := ls + [x];
    MergeHead(l);
    assert l[..|ls|] == ls;
    assert l[|ls|..] == [x];
    MergeOne(x);
  }

  /** The loop's view of the merge so far: the levels already closed and the
      open one. */
  function Pending(merged: seq<Level>, last: Option<Level>): seq<Level>
  {
    merged + (if last.Some? then [last.value] else [])
  }

  /** One step of the loop agrees with one step of `SnocMerged`. */
  lemma PendingStep(merged: seq<Level>, last: Option<Level>, level: Level)
    requires last.None? ==> merged == []
    ensures last.None? ==> SnocMerged(Pending(merged, last), level) == Pending(merged, Some(level))
    ensures last.Some? && last.value.price == level.price ==>
      SnocMerged(Pending(merged, last), level) == Pending(merged, Some(Level(last.value.price, last.value.size + level.size)))
    ensures last.Some? && last.value.price != level.price ==>
      SnocMerged(Pending(merged, last), level) == Pending(merged + [last.value], Some(level))
  {
    if last.Some? {
      var w := merged + [last.value];
      assert w[..|w| - 1] == merged;
    }
  }

  /** One step of the loop keeps its view equal to the merge of the levels
      seen. */
  lemma MergeStep(prefix: seq<Level>, level: Level, merged: seq<Level>, last: Option<Level>)
    requires last.None? ==> merged == []
    requires Pending(merged, last) == Merge(prefix)
    ensures last.None? ==> Merge(prefix + [level]) == Pending(merged, Some(level))
    ensures last.Some? && last.value.price == level.price ==>
      Merge(prefix + [level]) == Pending(merged, Some(Level(last.value.price, last.value.size + level.size)))
    ensures last.Some? && last.value.price != level.price ==>
      Merge(prefix + [level]) == Pending(merged + [last.value], Some(level))
  {
    MergeSnoc(prefix, level);
    PendingStep(merged, last, level);
  }

  /** Absorbing or appending a level adds its size; the prices gain the
      level's price only when it differs from the last one. */
  lemma SnocMergedMeaning(m: seq<Level>, x: Level)
    ensures TotalSize(SnocMerged(m, x)) == TotalSize(m) + x.size
    ensures LevelPrices(SnocMerged(m, x)) ==
      if |m| > 0 && m[|m| - 1].price == x.price then LevelPrices(m) else LevelPrices(m) + [x.price]
  {
    if |m| > 0 && m[|m| - 1].price == x.price {
      var init, y := m[..|m| - 1], m[|m| - 1];
      assert m == init + [y];
      TotalSizeSnoc(init, y);
      TotalSizeSnoc(init, Level(x.price, y.size + x.size));
      assert LevelPrices(init + [Level(x.price, y.size + x.size)]) == LevelPrices(m);
    } else {
      TotalSizeSnoc(m, x);
      assert LevelPrices(m + [x]) == LevelPrices(m) + [x.price];
    }
  }

  /** The run-by-run merge keeps the total size. */
  lemma {:induction false} MergeTotal(ls: seq<Level>)
    ensures TotalSize(Merge(ls)) == TotalSize(ls)
    decreases |ls|
  {
    if |ls| == 0 {
      assert LevelSizes(ls) == [];
    } else {
      var init, x := ls[..|ls| - 1], ls[|ls| - 1];
      assert ls == init + [x];
      MergeTotal(init);
      MergeSnoc(init, x);
      SnocMergedMeaning(Merge(init), x);
      TotalSizeSnoc(init, x);
    }
  }

  /** The run-by-run merge's prices are the ladder's prices with each run of
      equal prices collapsed to one. */
  lemma {:induction false} MergePrices(ls: seq<Level>)
    ensures LevelPrices(Merge(ls)) == Collapse(LevelPrices(ls))
    decreases |ls|
  {
    if |ls| > 0 {
      var init, x := ls[..|ls| - 1], ls[|ls| - 1];
      assert ls == init + [x];
      MergePrices(init);
      MergeSnoc(init, x);
      SnocMergedMeaning(Merge(init), x);
      var ps := LevelPrices(ls);
      assert ps[..|ps| - 1] == LevelPrices(init);
    }
  }

  /** `merge_levels`: consecutive levels at the same price become one level
      carrying their total size. */
  method MergeLevels(levels: seq<Level>) returns (merged: seq<Level>)
    ensures merged == Merge(levels)
    ensures |merged| == |Collapse(LevelPrices(levels))|
    ensures TotalSize(merged) == TotalSize(levels)
    ensures LevelPrices(merged) == Collapse(LevelPrices(levels))
  {
    merged := [];
    var last: Option<Level> := None;
    var i := 0;
    while i < |levels|
      invariant 0 <= i <= |levels|
      invariant last.None? <==> i == 0
      invariant last.None? ==> merged == []
      invariant Pending(merged, last) == Merge(levels[..i])
    {
      var level := levels[i];
      assert levels[..i + 1] == levels[..i] + [level];
      MergeStep(levels[..i], level, merged, last);
      if last.None? {
        last := Some(level);
      } else if last.value.price == level.price {
        last := Some(Level(last.value.price, last.value.size + level.size));
      } else {
        merged := merged + [last.value];
        last := Some(level);
      }
      i := i + 1;
    }
    assert levels[..i] == levels;
    if last.Some? {
      merged := merged + [last.value];
    }
    MergeTotal(levels);
    MergePrices(levels);
  }

  /** The merged ladder's prices: in order of first appearance of each run,
      the same set of prices, and no two neighbours at the same price. */
  lemma MergedPrices(levels: seq<Level>, merged: seq<Level>)
    requires LevelPrices(merged) == Collapse(LevelPrices(levels))
    ensures IsSubsequence(LevelPrices(merged), LevelPrices(levels))
    ensures forall p :: p in LevelPrices(merged) <==> p in LevelPrices(levels)
    ensures forall k :: 0 <= k < |merged| - 1 ==> merged[k].price != merged[k + 1].price
  {
    CollapseMeaning(LevelPrices(levels));
    assert forall k :: 0 <= k < |merged| ==> LevelPrices(merged)[k] == merged[k].price;
  }

  /** What one level may give with `left` still to take: all of it, or at
      most `cap` when a per-level cap is enforced. */
  function Allowance(left: real, cap: Option<real>): real
  {
    if cap.Some? then RMin(cap.value, left) else left
  }

  /** The per-level cap `size / min_levels`, when it is enforced. */
  function LevelCap(size: real, minLevels: int, enforceMinLevels: bool): Option<real>
    requires minLevels != 0
  {
    if enforceMinLevels then Some(size / minLevels as real) else None
  }

  /** The greedy selection, level by level from the head: a level holding
      more than its allowance gives the allowance and leaves its rest behind;
      otherwise it is taken whole. It stops once nothing is left to take or
      the ladder ends. The pair is the selection and the rests, in order. */
  function Greedy(orders: seq<Level>, left: real, cap: Option<real>): (seq<Level>, seq<Level>)
    decreases |orders|
  {
    if left <= 0.0 || |orders| == 0 then ([], [])
    else
      var o := orders[0];
      var allowed := Allowance(left, cap);
      if o.size > allowed then
        var g := Greedy(orders[1..], left - allowed, cap);
        ([Level(o.price, allowed)] + g.0, [Level(o.price, o.size - allowed)] + g.1)
      else
        var g := Greedy(orders[1..], left - o.size, cap);
        ([o] + g.0, g.1)
  }

  /** What the head level gives. */
  function Taken(o: Level, left: real, cap: Option<real>): real
  {
    if o.size > Allowance(left, cap) then Allowance(left, cap) else o.size
  }

  /** One step of the greedy selection, with the head level's part and rest
      named. */
  lemma GreedyStep(orders: seq<Level>, left: real, cap: Option<real>)
    requires |orders| > 0 && left > 0.0
    ensures var o := orders[0];
      var t := Taken(o, left, cap);
      var r := Greedy(orders[1..], left - t, cap);
      && Greedy(orders, left, cap).0 == [Level(o.price, t)] + r.0
      && Greedy(orders, left, cap).1 == (if o.size > t then [Level(o.price, o.size - t)] else []) + r.1
  {
  }

  /** The unused part of each level the selection split, in ladder order. */
  function SplitRests(orders: seq<Level>, selected: seq<Level>): seq<Level>
    requires |selected| <= |orders|
    decreases |selected|
  {
    if |selected| == 0 then []
    else
      (if orders[0].size > selected[0].size then [Level(orders[0].price, orders[0].size - selected[0].size)] else [])
      + SplitRests(orders[1..], selected[1..])
  }

  /** The selection is never longer than the ladder; it ends only when
      nothing is left to take or the ladder is used up; what stays behind is
      the unused part of each split level, in order. */
  lemma {:induction false} GreedyShape(orders: seq<Level>, left: real, cap: Option<real>)
    ensures var g := Greedy(orders, left, cap);
      && |g.0| <= |orders|
      && (|g.0| == |orders| || left - TotalSize(g.0) <= 0.0)
      && g.1 == SplitRests(orders, g.0)
    decreases |orders|
  {
    var g := Greedy(orders, left, cap);
    if left <= 0.0 || |orders| == 0 {
      assert LevelSizes(g.0) == [];
    } else {
      var o := orders[0];
      var t := Taken(o, left, cap);
      var r := Greedy(orders[1..], left - t, cap);
      GreedyStep(orders, left, cap);
      GreedyShape(orders[1..], left - t, cap);
      assert g.0[0] == Level(o.price, t) && g.0[1..] == r.0;
      TotalSizeCons(g.0);
    }
  }

  /** What is still to take when level `k` of a selection is reached. */
  function LeftAt(size: real, selected: seq<Level>, k: nat): real
    requires k <= |selected|
  {
    if k == 0 then size else LeftAt(size, selected, k - 1) - selected[k - 1].size
  }

  lemma {:induction false} LeftAtCons(size: real, x: Level, s: seq<Level>, k: nat)
    requires 1 <= k <= |s| + 1
    ensures LeftAt(size, [x] + s, k) == LeftAt(size - x.size, s, k - 1)
    decreases k
  {
    if k > 1 {
      LeftAtCons(size, x, s, k - 1);
      assert ([x] + s)[k - 1] == s[k - 2];
    }
  }

  /** Level `k` of the selection is at the ladder's level `k` price, is
      reached with something still to take, and gives the smaller of what
      the level holds and its allowance for what is still to take. */
  lemma {:induction false} GreedyAt(orders: seq<Level>, left: real, cap: Option<real>, k: nat)
    requires k < |Greedy(orders, left, cap).0|
    ensures var g := Greedy(orders, left, cap);
      && k < |orders|
      && g.0[k].price == orders[k].price
      && LeftAt(left, g.0, k) > 0.0
      && g.0[k].size == RMin(orders[k].size, Allowance(LeftAt(left, g.0, k), cap))
    decreases k
  {
    var g := Greedy(orders, left, cap);
    var o := orders[0];
    var t := Taken(o, left, cap);
    var x := Level(o.price, t);
    var r := Greedy(orders[1..], left - t, cap);
    GreedyStep(orders, left, cap);
    if k > 0 {
      GreedyAt(orders[1..], left - t, cap, k - 1);
      LeftAtCons(left, x, r.0, k);
    }
  }

  /** Selection, rests and the levels not reached hold the ladder's total. */
  lemma {:induction false} GreedyTotal(orders: seq<Level>, left: real, cap: Option<real>)
    ensures var g := Greedy(orders, left, cap);
      |g.0| <= |orders| && TotalSize(g.0) + TotalSize(g.1) + TotalSize(orders[|g.0|..]) == TotalSize(orders)
    decreases |orders|
  {
    var g := Greedy(orders, left, cap);
    if left <= 0.0 || |orders| == 0 {
      assert LevelSizes(g.0) == [] && LevelSizes(g.1) == [];
      assert orders[0..] == orders;
    } else {
      var o := orders[0];
      var t := Taken(o, left, cap);
      var x := Level(o.price, t);
      var r := Greedy(orders[1..], left - t, cap);
      var rest := if o.size > t then [Level(o.price, o.size - t)] else [];
      GreedyStep(orders, left, cap);
      GreedyTotal(orders[1..], left - t, cap);
      assert TotalSize(g.0) == t + TotalSize(r.0) by {
        TotalSizeAppend([x], r.0);
        TotalSizeOne(x);
      }
      assert TotalSize(g.1) == (if o.size > t then o.size - t else 0.0) + TotalSize(r.1) by {
        TotalSizeAppend(rest, r.1);
        if o.size > t {
          TotalSizeOne(Level(o.price, o.size - t));
        } else {
          assert LevelSizes(rest) == [];
        }
      }
      assert TotalSize(orders[|g.0|..]) == TotalSize(orders[1..][|r.0|..]) by {
        assert orders[|g.0|..] == orders[1..][|r.0|..];
      }
      assert TotalSize(orders) == o.size + TotalSize(orders[1..]) by {
        TotalSizeCons(orders);
      }
    }
  }

  /** From a non-negative amount the selection takes at most that amount. */
  lemma {:induction false} GreedyWithin(orders: seq<Level>, left: real, cap: Option<real>)
    requires left >= 0.0
    ensures TotalSize(Greedy(orders, left, cap).0) <= left
    decreases |orders|
  {
    var g := Greedy(orders, left, cap);
    if left <= 0.0 || |orders| == 0 {
      assert LevelSizes(g.0) == [];
    } else {
      var o := orders[0];
      var t := Taken(o, left, cap);
      var r := Greedy(orders[1..], left - t, cap);
      GreedyStep(orders, left, cap);
      GreedyWithin(orders[1..], left - t, cap);
      TotalSizeCons(g.0);
      assert g.0[1..] == r.0;
    }
  }

  /** Without the per-level cap, on levels of non-negative size, the
      selection takes the amount asked or the whole ladder, whichever is
      smaller. */
  lemma {:induction false} GreedyUncapped(orders: seq<Level>, left: real)
    requires left >= 0.0 && NonNegativeSizes(orders)
    ensures TotalSize(Greedy(orders, left, None).0) == RMin(left, TotalSize(orders))
    decreases |orders|
  {
    var g := Greedy(orders, left, None);
    TotalSizeNonNegative(orders);
    if left <= 0.0 || |orders| == 0 {
      assert LevelSizes(g.0) == [];
      if |orders| == 0 {
        assert LevelSizes(orders) == [];
      }
    } else {
      var o := orders[0];
      var t := Taken(o, left, None);
      var r := Greedy(orders[1..], left - t, None);
      GreedyStep(orders, left, None);
      assert NonNegativeSizes(orders[1..]);
      GreedyUncapped(orders[1..], left - t);
      TotalSizeNonNegative(orders[1..]);
      TotalSizeCons(g.0);
      assert g.0[1..] == r.0;
      TotalSizeCons(orders);
    }
  }

  /** One step of the loop in `get_top_orders_by_size`: the level at `i`
      is taken, in part or whole, before the levels after it. */
  lemma GreedyAdvance(orders: seq<Level>, i: nat, left: real, cap: Option<real>)
    requires i < |orders| && left > 0.0
    ensures var o := orders[i];
      var t := Taken(o, left, cap);
      Greedy(orders[i..], left, cap).0 == [Level(o.price, t)] + Greedy(orders[i + 1..], left - t, cap).0
    ensures var o := orders[i];
      var t := Taken(o, left, cap);
      Greedy(orders[i..], left, cap).1
        == (if o.size > t then [Level(o.price, o.size - t)] else []) + Greedy(orders[i + 1..], left - t, cap).1
  {
    GreedyStep(orders[i..], left, cap);
    assert orders[i..][1..] == orders[i + 1..];
  }

  /** Appending is associative; stated once for the loop below. */
  lemma AppendAssoc(a: seq<Level>, b: seq<Level>, c: seq<Level>)
    ensures a + (b + c) == (a + b) + c
  {
  }

  /** The loop of `get_top_orders_by_size`, shown to compute the greedy
      selection `Greedy` defines level by level. */
  method TakeGreedily(orders: seq<Level>, size: real, cap: Option<real>)
    returns (selected: seq<Level>, remaining: seq<Level>)
    ensures |selected| <= |orders|
    ensures selected == Greedy(orders, size, cap).0
    ensures remaining == Greedy(orders, size, cap).1 + orders[|selected|..]
  {
    var left := size;
    var leftovers: seq<Level> := [];
    selected := [];
    var i := 0;
    assert orders[0..] == orders;
    ghost var g0 := Greedy(orders, size, cap);
    assert selected + g0.0 == g0.0 && leftovers + g0.1 == g0.1;
    while left > 0.0 && i < |orders|
      invariant 0 <= i <= |orders| && |selected| == i
      invariant Greedy(orders, size, cap).0 == selected + Greedy(orders[i..], left, cap).0
      invariant Greedy(orders, size, cap).1 == leftovers + Greedy(orders[i..], left, cap).1
      decreases |orders| - i
    {
      var order := orders[i];
      var levelSize := Allowance(left, cap);
      GreedyAdvance(orders, i, left, cap);
      ghost var r := Greedy(orders[i + 1..], left - Taken(order, left, cap), cap);
      if order.size > levelSize {
        var rest := Level(order.price, order.size - levelSize);
        AppendAssoc(selected, [Level(order.price, levelSize)], r.0);
        AppendAssoc(leftovers, [rest], r.1);
        selected := selected + [Level(order.price, levelSize)];
        leftovers := leftovers + [rest];
        left := left - levelSize;
      } else {
        AppendAssoc(selected, [order], r.0);
        assert [] + r.1 == r.1;
        selected := selected + [order];
        left := left - order.size;
      }
      i := i + 1;
    }
    remaining := leftovers + orders[i..];
    assert Greedy(orders[i..], left, cap) == ([], []);
    assert selected + [] == selected && leftovers + [] == leftovers;
    assert orders[i..] == orders[|selected|..];
      }

  /** `get_top_orders_by_size`: levels are taken from the head of the ladder
      until `size` is used up. With `enforceMinLevels` no level takes more
      than `size / minLevels`. A level larger than what it may take is split:
      the part taken is selected and the rest goes back to the ladder, in
      front of the levels not reached, in their original order. */
  method GetTopOrdersBySize(orders: seq<Level>, size: real, minLevels: int, enforceMinLevels: bool)
    returns (selected: seq<Level>, remaining: seq<Level>)
    requires minLevels != 0
    ensures |selected| <= |orders|
    ensures var g := Greedy(orders, size, LevelCap(size, minLevels, enforceMinLevels));
      selected == g.0 && remaining == g.1 + orders[|selected|..]
    ensures forall k :: 0 <= k < |selected| ==>
      && selected[k].price == orders[k].price
      && selected[k].size == RMin(orders[k].size, Allowance(LeftAt(size, selected, k), LevelCap(size, minLevels, enforceMinLevels)))
    ensures forall k :: 0 <= k < |selected| ==> selected[k].size <= orders[k].size
    ensures |selected| == |orders| || TotalSize(selected) >= size
    ensures remaining == SplitRests(orders, selected) + orders[|selected|..]
    ensures TotalSize(selected) + TotalSize(remaining) == TotalSize(orders)
    ensures |remaining| >= |orders| - |selected| && remaining[|remaining| - (|orders| - |selected|)..] == orders[|selected|..]
    ensures size >= 0.0 ==> TotalSize(selected) <= size
    ensures !enforceMinLevels && size >= 0.0 && NonNegativeSizes(orders) ==>
      TotalSize(selected) == RMin(size, TotalSize(orders))
    ensures enforceMinLevels ==> forall k :: 0 <= k < |selected| ==> selected[k].size <= size / minLevels as real
  {
    selected, remaining := TakeGreedily(orders, size, LevelCap(size, minLevels, enforceMinLevels));
    GreedySelection(orders, size, minLevels, enforceMinLevels, selected, remaining);
  }

  /** Everything `get_top_orders_by_size` promises, stated of the greedy
      selection and of the ladder it leaves behind. */
  lemma GreedySelection(orders: seq<Level>, size: real, minLevels: int, enforceMinLevels: bool,
                        selected: seq<Level>, remaining: seq<Level>)
    requires minLevels != 0
    requires var g := Greedy(orders, size, LevelCap(size, minLevels, enforceMinLevels));
      selected == g.0 && |selected| <= |orders| && remaining == g.1 + orders[|selected|..]
    ensures forall k :: 0 <= k < |selected| ==>
      && selected[k].price == orders[k].price
      && selected[k].size == RMin(orders[k].size, Allowance(LeftAt(size, selected, k), LevelCap(size, minLevels, enforceMinLevels)))
    ensures forall k :: 0 <= k < |selected| ==> selected[k].size <= orders[k].size
    ensures |selected| == |orders| || TotalSize(selected) >= size
    ensures remaining == SplitRests(orders, selected) + orders[|selected|..]
    ensures TotalSize(selected) + TotalSize(remaining) == TotalSize(orders)
    ensures |remaining| >= |orders| - |selected| && remaining[|remaining| - (|orders| - |selected|)..] == orders[|selected|..]
    ensures size >= 0.0 ==> TotalSize(selected) <= size
    ensures !enforceMinLevels && size >= 0.0 && NonNegativeSizes(orders) ==>
      TotalSize(selected) == RMin(size, TotalSize(orders))
    ensures enforceMinLevels ==> forall k :: 0 <= k < |selected| ==> selected[k].size <= size / minLevels as real
  {
    var cap := LevelCap(size, minLevels, enforceMinLevels);
    var g := Greedy(orders, size, cap);
    GreedyShape(orders, size, cap);
    GreedyTotal(orders, size, cap);
    TotalSizeAppend(g.1, orders[|g.0|..]);
    forall k | 0 <= k < |g.0|
      ensures g.0[k].price == orders[k].price
      ensures g.0[k].size == RMin(orders[k].size, Allowance(LeftAt(size, g.0, k), cap))
    {
      GreedyAt(orders, size, cap, k);
    }
    if size >= 0.0 {
      GreedyWithin(orders, size, cap);
      if !enforceMinLevels && NonNegativeSizes(orders) {
        GreedyUncapped(orders, size);
      }
    }
  }

  /** Levels of at least one contract: the filter of `create_order_format`. */
  function EnoughFlags(levels: seq<Level>, contractSize: real): (f: seq<bool>)
    ensures |f| == |levels|
    ensures forall k :: 0 <= k < |f| ==> (f[k] <==> levels[k].size >= contractSize)
  {
    seq(|levels|, k requires 0 <= k < |levels| => levels[k].size >= contractSize)
  }

  /** One level as a venue order: the size in whole contracts (truncated),
      the price scaled by the side's factor and rounded down for bids and up
      for asks. */
  function FormatLevel(l: Level, side: Side, contractSize: real, scale: real, tick: real,
                       productId: int, postOnly: bool): Order
    requires contractSize != 0.0 && tick != 0.0
  {
    var mode := if side == Buy then Floor else Ceil;
    Order(None, productId, side, RoundByTickSize(l.price * scale, tick, mode), Trunc(l.size / contractSize),
          LimitOrder, postOnly)
  }

  /** `create_order_format` for one side. */
  function FormatSide(levels: seq<Level>, side: Side, contractSize: real, scale: real, tick: real,
                      productId: int, postOnly: bool): seq<Order>
    requires contractSize != 0.0 && tick != 0.0
  {
    var kept := Pick(levels, EnoughFlags(levels, contractSize), true);
    seq(|kept|, k requires 0 <= k < |kept| => FormatLevel(kept[k], side, contractSize, scale, tick, productId, postOnly))
  }

  /** `create_order_format`: bids then asks. */
  function CreateOrderFormat(buys: seq<Level>, sells: seq<Level>, contractSize: real, buyScale: real,
                             sellScale: real, tick: real, productId: int, postOnly: bool): (seq<Order>, seq<Order>)
    requires contractSize != 0.0 && tick != 0.0
  {
    (FormatSide(buys, Buy, contractSize, buyScale, tick, productId, postOnly),
     FormatSide(sells, Sell, contractSize, sellScale, tick, productId, postOnly))
  }

  /** The levels kept are, in order, exactly those of at least one contract;
      every order is a whole number (at least one) of contracts and a
      limit order on the tick grid, a bid no higher and an ask no lower than
      its scaled price, by less than a tick. */
  lemma FormatSideMeaning(levels: seq<Level>, side: Side, contractSize: real, scale: real, tick: real,
                          productId: int, postOnly: bool)
    requires contractSize > 0.0 && tick > 0.0
    ensures var kept := Pick(levels, EnoughFlags(levels, contractSize), true);
      var r := FormatSide(levels, side, contractSize, scale, tick, productId, postOnly);
      && IsSubsequence(kept, levels)
      && (forall x :: x in kept <==> x in levels && x.size >= contractSize)
      && |r| == |kept|
      && forall k :: 0 <= k < |r| ==>
           && r[k].side == side && r[k].productId == productId && r[k].orderType == LimitOrder && r[k].id == None
           && r[k].size >= 1
           && r[k].size as real <= kept[k].size / contractSize < r[k].size as real + 1.0
           && IsMultipleOf(r[k].price, tick)
           && (kept[k].price * scale >= 0.0 ==>
                 if side == Buy then kept[k].price * scale - tick < r[k].price <= kept[k].price * scale
                 else kept[k].price * scale <= r[k].price < kept[k].price * scale + tick)
  {
    var f := EnoughFlags(levels, contractSize);
    var kept := Pick(levels, f, true);
    PickKeepsOrder(levels, f, true);
    PickMembers(levels, f, true);
    var r := FormatSide(levels, side, contractSize, scale, tick, productId, postOnly);
    forall k | 0 <= k < |r|
      ensures r[k].size >= 1
      ensures IsMultipleOf(r[k].price, tick)
      ensures kept[k].price * scale >= 0.0 ==>
                 if side == Buy then kept[k].price * scale - tick < r[k].price <= kept[k].price * scale
                 else kept[k].price * scale <= r[k].price < kept[k].price * scale + tick
    {
      assert kept[k] in kept;
      DivAtLeastOne(kept[k].size, contractSize);
      assert r[k] == FormatLevel(kept[k], side, contractSize, scale, tick, productId, postOnly);
      QuoteBounds(kept[k].price * scale, tick, side, r[k].price);
    }
  }

  /** A quote's price is on the tick grid, within a tick of its target: at
      or below it for a bid, at or above it for an ask. */
  lemma QuoteBounds(p: real, tick: real, side: Side, o: real)
    requires tick > 0.0 && o == RoundByTickSize(p, tick, if side == Buy then Floor else Ceil)
    ensures IsMultipleOf(o, tick)
    ensures p >= 0.0 ==> if side == Buy then p - tick < o <= p else p <= o < p + tick
  {
    RoundByTickSizeOnGrid(p, tick, if side == Buy then Floor else Ceil);
    if p >= 0.0 {
      if side == Buy {
        RoundFloorBounds(p, tick);
      } else if !IsMultipleOf(p, tick) {
        RoundCeilBounds(p, tick);
      }
    }
  }
}
