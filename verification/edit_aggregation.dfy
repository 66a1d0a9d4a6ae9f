/** `notional` and `get_orders`: pairing deletes with creates into in-place
    edits while a running notional budget allows it. */
module EditAggregation {
  import opened Wrappers
  import opened Orders
  import opened Seqs
  import opened RealArith

  /** `notional` is defined unless an inverse contract divides by a zero price. */
  predicate NotionalDefined(size: int, price: Option<real>, inverse: bool)
  {
    size == 0 || price.None? || !inverse || price.value != 0.0
  }

  /** `notional`: 0 for an empty size or a missing price; otherwise size
      times price for a linear contract and size over price for an inverse one. */
  function Notional(size: int, price: Option<real>, inverse: bool): (n: real)
    requires NotionalDefined(size, price, inverse)
  {
    if size == 0 || price.None? then 0.0
    else if inverse then size as real / price.value
    else size as real * price.value
  }

  /** A notional is worth nothing without a size or a price; at a nonzero
      price it gives the size back (times the price for an inverse contract,
      over it for a linear one), it has the sign of the size at a positive
      price, and the notionals of two sizes at one price add up. */
  lemma NotionalMeaning(size: int, other: int, price: Option<real>, inverse: bool)
    requires inverse ==> price != Some(0.0)
    ensures size == 0 || price.None? ==> Notional(size, price, inverse) == 0.0
    ensures price.Some? && price.value != 0.0 ==>
      size as real == if inverse then Notional(size, price, inverse) * price.value
                      else Notional(size, price, inverse) / price.value
    ensures price.Some? && price.value > 0.0 ==>
      (Notional(size, price, inverse) > 0.0 <==> size > 0) && (Notional(size, price, inverse) < 0.0 <==> size < 0)
    ensures Notional(size + other, price, inverse) == Notional(size, price, inverse) + Notional(other, price, inverse)
  {
    if price.Some? && price.value != 0.0 {
      var p := price.value;
      var a, b := size as real, other as real;
      if inverse {
        DivMul(a, p);
        DivStrictSign(a, p);
        DivAdd(a, b, p);
      } else {
        MulDiv(a, p);
        MulStrictSign(a, p);
        MulAdd(a, b, p);
      }
    }
  }

  /** A notional is never negative for a non-negative size at a positive price. */
  lemma NotionalNonNegative(size: int, price: Option<real>, inverse: bool)
    requires size >= 0 && (price.Some? ==> price.value > 0.0)
    ensures Notional(size, price, inverse) >= 0.0
  {
    if size != 0 && price.Some? && inverse {
      var p := price.value;
      assert size as real / p >= 0.0;
    }
  }

  predicate OrderNotionalDefined(o: Order, inverse: bool)
  {
    NotionalDefined(o.size, Some(o.price), inverse)
  }

  predicate AllDefined(os: seq<Order>, inverse: bool)
  {
    forall k :: 0 <= k < |os| ==> OrderNotionalDefined(os[k], inverse)
  }

  /** The notional `get_orders` stores on each order of a list. */
  function Notionals(os: seq<Order>, inverse: bool): (r: seq<real>)
    requires AllDefined(os, inverse)
    ensures |r| == |os|
    ensures forall k :: 0 <= k < |r| ==> r[k] == Notional(os[k].size, Some(os[k].price), inverse)
  {
    seq(|os|, k requires 0 <= k < |os| => Notional(os[k].size, Some(os[k].price), inverse))
  }

  /** Orders of non-negative size at positive prices carry no negative notional. */
  lemma NotionalsNonNegative(os: seq<Order>, inverse: bool)
    requires AllDefined(os, inverse)
    requires forall k :: 0 <= k < |os| ==> os[k].size >= 0 && os[k].price > 0.0
    ensures AllNonNegative(Notionals(os, inverse))
  {
    var r := Notionals(os, inverse);
    forall k | 0 <= k < |r|
      ensures r[k] >= 0.0
    {
      NotionalNonNegative(os[k].size, Some(os[k].price), inverse);
    }
  }

  predicate AllNonNegative(xs: seq<real>)
  {
    forall k :: 0 <= k < |xs| ==> xs[k] >= 0.0
  }

  /** The decisions of the `while` loop of `get_orders`, one flag per delete
      it pops, from the notionals of the remaining creates and deletes and the
      budget `extra`. A delete is merged into an edit with the head create
      (`true`) when the create's notional fits within the delete's notional
      plus the budget; otherwise it is deleted (`false`) and the same create
      meets the next delete. Either way the delete's notional joins the
      budget, and an edit spends the create's. The loop stops as soon as
      either list is empty. */
  function Decisions(creates: seq<real>, deletes: seq<real>, extra: real): (f: seq<bool>)
    decreases |deletes|
  {
    if |creates| == 0 || |deletes| == 0 then []
    else if creates[0] > deletes[0] + extra then
      [false] + Decisions(creates, deletes[1..], extra + deletes[0])
    else
      [true] + Decisions(creates[1..], deletes[1..], extra + deletes[0] - creates[0])
  }

  /** The loop pops at most every delete, turns at most every create into
      an edit, and runs until one of the two lists is used up. */
  lemma {:induction false} DecisionsExhaust(creates: seq<real>, deletes: seq<real>, extra: real)
    ensures var f := Decisions(creates, deletes, extra);
      && |f| <= |deletes|
      && CountTrue(f) <= |creates|
      && (|f| == |deletes| || CountTrue(f) == |creates|)
    decreases |deletes|
  {
    if |creates| > 0 && |deletes| > 0 {
      var f := Decisions(creates, deletes, extra);
      if creates[0] > deletes[0] + extra {
        DecisionsExhaust(creates, deletes[1..], extra + deletes[0]);
        assert f[1..] == Decisions(creates, deletes[1..], extra + deletes[0]);
      } else {
        DecisionsExhaust(creates[1..], deletes[1..], extra + deletes[0] - creates[0]);
        assert f[1..] == Decisions(creates[1..], deletes[1..], extra + deletes[0] - creates[0]);
      }
    }
  }

  /** Step `k` of the loop, given the decisions `f`: it meets the create
      after the `e` already edited and the `k`-th delete, with the budget
      equal to the starting budget plus the notional of the `k` deletes
      popped so far minus that of the `e` creates edited so far, and it
      edits exactly when the create fits within the delete plus that
      budget. */
  predicate StepRule(creates: seq<real>, deletes: seq<real>, extra: real, f: seq<bool>, k: nat)
    requires k < |f|
  {
    var e := CountTrue(f[..k]);
    && e < |creates| && k < |deletes|
    && (f[k] <==> creates[e] <= deletes[k] + (extra + Sum(deletes[..k]) - Sum(creates[..e])))
  }

  /** Every decision of the loop follows the step rule. */
  lemma {:induction false} DecisionsMeaning(creates: seq<real>, deletes: seq<real>, extra: real)
    ensures forall k :: 0 <= k < |Decisions(creates, deletes, extra)| ==>
      StepRule(creates, deletes, extra, Decisions(creates, deletes, extra), k)
    decreases |deletes|
  {
    var f := Decisions(creates, deletes, extra);
    if |creates| > 0 && |deletes| > 0 {
      var c, d := creates[0], deletes[0];
      assert StepRule(creates, deletes, extra, f, 0) by {
        assert f[..0] == [];
        assert deletes[..0] == [] && creates[..0] == [];
      }
      if c > d + extra {
        var ds, budget := deletes[1..], extra + d;
        var g := Decisions(creates, ds, budget);
        DecisionsMeaning(creates, ds, budget);
        assert forall j :: 0 <= j < |g| ==> StepRule(creates, ds, budget, g, j);
        assert f == [false] + g;
        forall k | 1 <= k < |f|
          ensures StepRule(creates, deletes, extra, f, k)
        {
          assert StepRule(creates, deletes[1..], extra + d, g, k - 1);
          assert f[..k] == [false] + g[..k - 1];
          assert deletes[..k] == [d] + deletes[1..][..k - 1];
        }
      } else {
        var cs, ds, budget := creates[1..], deletes[1..], extra + d - c;
        var g := Decisions(cs, ds, budget);
        DecisionsMeaning(cs, ds, budget);
        assert forall j :: 0 <= j < |g| ==> StepRule(cs, ds, budget, g, j);
        assert f == [true] + g;
        forall k | 1 <= k < |f|
          ensures StepRule(creates, deletes, extra, f, k)
        {
          assert StepRule(creates[1..], deletes[1..], extra + d - c, g, k - 1);
          assert f[..k] == [true] + g[..k - 1];
          var e := CountTrue(g[..k - 1]);
          assert deletes[..k] == [d] + deletes[1..][..k - 1];
          assert creates[..e + 1] == [c] + creates[1..][..e];
        }
      }
    }
  }

  /** The budget never goes negative when it starts non-negative and no
      delete carries a negative notional: the creates turned into edits
      never bring in more notional than the starting budget plus the
      deletes popped. */
  lemma {:induction false} DecisionsBudget(creates: seq<real>, deletes: seq<real>, extra: real)
    requires AllNonNegative(deletes) && extra >= 0.0
    ensures var f := Decisions(creates, deletes, extra);
      |f| <= |deletes| && CountTrue(f) <= |creates|
    ensures var f := Decisions(creates, deletes, extra);
      Sum(creates[..CountTrue(f)]) <= extra + Sum(deletes[..|f|])
    decreases |deletes|
  {
    DecisionsExhaust(creates, deletes, extra);
    if |creates| > 0 && |deletes| > 0 {
      var c, d := creates[0], deletes[0];
      assert AllNonNegative(deletes[1..]) by {
        forall k | 0 <= k < |deletes| - 1
          ensures deletes[1..][k] >= 0.0
        {
          assert deletes[1..][k] == deletes[k + 1];
        }
      }
      if c > d + extra {
        DecisionsBudget(creates, deletes[1..], extra + d);
        DropStepSums(creates, deletes, extra);
      } else {
        DecisionsBudget(creates[1..], deletes[1..], extra + d - c);
        EditStepSums(creates, deletes, extra);
      }
    }
  }

  /** A dropped head delete adds its notional to the popped sum only. */
  lemma DropStepSums(creates: seq<real>, deletes: seq<real>, extra: real)
    requires |creates| > 0 && |deletes| > 0 && creates[0] > deletes[0] + extra
    ensures var f, g := Decisions(creates, deletes, extra), Decisions(creates, deletes[1..], extra + deletes[0]);
      && |f| == |g| + 1 && CountTrue(f) == CountTrue(g)
      && (|g| <= |deletes| - 1 ==> Sum(deletes[..|f|]) == deletes[0] + Sum(deletes[1..][..|g|]))
  {
    var f, g := Decisions(creates, deletes, extra), Decisions(creates, deletes[1..], extra + deletes[0]);
    assert f == [false] + g;
    assert f[1..] == g;
    if |g| <= |deletes| - 1 {
      assert deletes[..|f|] == [deletes[0]] + deletes[1..][..|g|];
    }
  }

  /** An edit adds the delete's notional to the popped sum and the create's
      to the edited sum. */
  lemma EditStepSums(creates: seq<real>, deletes: seq<real>, extra: real)
    requires |creates| > 0 && |deletes| > 0 && creates[0] <= deletes[0] + extra
    ensures var f, g := Decisions(creates, deletes, extra), Decisions(creates[1..], deletes[1..], extra + deletes[0] - creates[0]);
      && |f| == |g| + 1 && CountTrue(f) == CountTrue(g) + 1
      && (|g| <= |deletes| - 1 ==> Sum(deletes[..|f|]) == deletes[0] + Sum(deletes[1..][..|g|]))
      && (CountTrue(g) <= |creates| - 1 ==> Sum(creates[..CountTrue(f)]) == creates[0] + Sum(creates[1..][..CountTrue(g)]))
  {
    var f, g := Decisions(creates, deletes, extra), Decisions(creates[1..], deletes[1..], extra + deletes[0] - creates[0]);
    assert f == [true] + g;
    assert f[1..] == g;
    if |g| <= |deletes| - 1 {
      assert deletes[..|f|] == [deletes[0]] + deletes[1..][..|g|];
    }
    if CountTrue(g) <= |creates| - 1 {
      assert creates[..CountTrue(f)] == [creates[0]] + creates[1..][..CountTrue(g)];
    }
  }

  /** The edit request: the id of the order being replaced, and the product,
      price and size of the level replacing it. */
  datatype EditRequest = EditRequest(id: Option<int>, productId: int, limitPrice: real, unfilledSize: int, postOnly: bool)

  /** `edit_append`: the id comes from the delete, everything else from the create. */
  function EditOf(create: Order, delete: Order, postOnly: bool): (e: EditRequest)
    ensures e.id == delete.id
    ensures e.productId == create.productId && e.limitPrice == create.price && e.unfilledSize == create.size
    ensures e.postOnly == postOnly
  {
    EditRequest(delete.id, create.productId, create.price, create.size, postOnly)
  }

  datatype GetOrdersResult = GetOrdersResult(edit: seq<EditRequest>, create: seq<Order>, delete: seq<Order>)

  /** The loop's decisions on the annotated lists, from an empty budget. */
  function Plan(creates: seq<Order>, deletes: seq<Order>, inverse: bool): (f: seq<bool>)
    requires AllDefined(creates, inverse) && AllDefined(deletes, inverse)
    ensures |f| <= |deletes| && CountTrue(f) <= |creates|
    ensures |f| == |deletes| || CountTrue(f) == |creates|
  {
    DecisionsExhaust(Notionals(creates, inverse), Notionals(deletes, inverse), 0.0);
    Decisions(Notionals(creates, inverse), Notionals(deletes, inverse), 0.0)
  }

  /** The deletes `get_orders` merges into edits, in the order they were popped. */
  function Absorbed(creates: seq<Order>, deletes: seq<Order>, inverse: bool): (a: seq<Order>)
    requires AllDefined(creates, inverse) && AllDefined(deletes, inverse)
    ensures |a| <= |creates| && |a| <= |deletes|
  {
    Pick(deletes, Plan(creates, deletes, inverse), true)
  }

  /** `get_orders`: notional annotation, the pairing loop from an empty
      budget, then whatever is left of either list is appended to the
      creates or to the deletes. Each edit takes its product, price and size
      from a create, in order, and its id from an absorbed delete, in order;
      the creates left over are the tail of the create list. */
  function GetOrders(creates: seq<Order>, deletes: seq<Order>, inverse: bool, postOnly: bool): (r: GetOrdersResult)
    requires AllDefined(creates, inverse) && AllDefined(deletes, inverse)
    ensures |r.edit| + |r.delete| == |deletes|
    ensures |r.edit| + |r.create| == |creates|
    ensures r.create == creates[|r.edit|..]
    ensures |r.edit| == |Absorbed(creates, deletes, inverse)|
    ensures forall k :: 0 <= k < |r.edit| ==>
      r.edit[k] == EditOf(creates[k], Absorbed(creates, deletes, inverse)[k], postOnly)
  {
    var f := Plan(creates, deletes, inverse);
    var absorbed := Absorbed(creates, deletes, inverse);
    var e := |absorbed|;
    GetOrdersResult(
      seq(e, k requires 0 <= k < e => EditOf(creates[k], absorbed[k], postOnly)),
      creates[e..],
      Pick(deletes, f, false))
  }

  /** Every delete is either absorbed into an edit or still deleted, and the
      deletes keep their original relative order. */
  lemma GetOrdersAccountsForDeletes(creates: seq<Order>, deletes: seq<Order>, inverse: bool, postOnly: bool)
    requires AllDefined(creates, inverse) && AllDefined(deletes, inverse)
    ensures var r := GetOrders(creates, deletes, inverse, postOnly);
      && multiset(Absorbed(creates, deletes, inverse)) + multiset(r.delete) == multiset(deletes)
      && IsSubsequence(r.delete, deletes)
      && IsSubsequence(Absorbed(creates, deletes, inverse), deletes)
  {
    var f := Plan(creates, deletes, inverse);
    PickSplits(deletes, f);
    PickKeepsOrder(deletes, f, true);
    PickKeepsOrder(deletes, f, false);
  }

  /** Every price `get_orders` submits, in an edit or a create, is the price
      of one of the creates: a property of all create prices carries over. */
  lemma GetOrdersPricesFromCreates(creates: seq<Order>, deletes: seq<Order>, inverse: bool, postOnly: bool,
                                   ok: real -> bool)
    requires AllDefined(creates, inverse) && AllDefined(deletes, inverse)
    requires forall k :: 0 <= k < |creates| ==> ok(creates[k].price)
    ensures var r := GetOrders(creates, deletes, inverse, postOnly);
      && (forall k :: 0 <= k < |r.create| ==> ok(r.create[k].price))
      && (forall k :: 0 <= k < |r.edit| ==> ok(r.edit[k].limitPrice))
  {
    var r := GetOrders(creates, deletes, inverse, postOnly);
    var e := |r.edit|;
    forall k | 0 <= k < |r.create|
      ensures ok(r.create[k].price)
    {
      assert r.create[k] == creates[e + k];
    }
  }

  /** With non-negative notionals on the deletes, the notional brought in by
      the edits never exceeds the notional of the deletes popped: the budget
      never goes negative. */
  lemma GetOrdersBudget(creates: seq<Order>, deletes: seq<Order>, inverse: bool)
    requires AllDefined(creates, inverse) && AllDefined(deletes, inverse)
    requires forall k :: 0 <= k < |deletes| ==> deletes[k].size >= 0 && deletes[k].price > 0.0
    ensures var nc, nd := Notionals(creates, inverse), Notionals(deletes, inverse);
      var f := Decisions(nc, nd, 0.0);
      |f| <= |nd| && CountTrue(f) <= |nc| && Sum(nc[..CountTrue(f)]) <= Sum(nd[..|f|])
  {
    NotionalsNonNegative(deletes, inverse);
    DecisionsBudget(Notionals(creates, inverse), Notionals(deletes, inverse), 0.0);
  }

  /** The head decision: the first delete is merged into an edit exactly when
      the first create's notional fits within it (the budget starts empty). */
  lemma GetOrdersHeadDecision(creates: seq<Order>, deletes: seq<Order>, inverse: bool, postOnly: bool)
    requires AllDefined(creates, inverse) && AllDefined(deletes, inverse)
    requires |creates| > 0 && |deletes| > 0
    ensures var r := GetOrders(creates, deletes, inverse, postOnly);
      var nc, nd := Notional(creates[0].size, Some(creates[0].price), inverse),
                    Notional(deletes[0].size, Some(deletes[0].price), inverse);
      (nc <= nd ==> |r.edit| > 0 && r.edit[0] == EditOf(creates[0], deletes[0], postOnly))
  {
    var nc, nd := Notionals(creates, inverse), Notionals(deletes, inverse);
    var f := Plan(creates, deletes, inverse);
    if nc[0] <= nd[0] + 0.0 {
      assert f[0];
      assert Pick(deletes, f, true)[0] == deletes[0];
    }
  }
}
