/** The stable sort of live orders by price that the reconciliation engine
    applies before diffing: asks ascending, bids descending (`reverse=True`
    keeps equal prices in their listed order as well). */
module PriceSort {
  import opened Orders

  /** `a` may stand before `b` in a ladder of the given side. */
  predicate NoWorse(side: Side, a: real, b: real)
  {
    match side
    case Sell => a <= b
    case Buy => a >= b
  }

  /** Best price first: asks ascending, bids descending. */
  predicate PriceOrdered(side: Side, os: seq<Order>)
  {
    forall i, j :: 0 <= i < j < |os| ==> NoWorse(side, os[i].price, os[j].price)
  }

  /** Inserts `x` before the first entry it is no worse than; entries with
      the same price as `x` stay after it, which keeps the sort stable when
      the list is built from its tail. */
  function Insert(side: Side, x: Order, os: seq<Order>): (r: seq<Order>)
    ensures |r| == |os| + 1
    ensures multiset(r) == multiset(os) + multiset{x}
  {
    if |os| == 0 || NoWorse(side, x.price, os[0].price) then [x] + os
    else
      assert os == [os[0]] + os[1..];
      [os[0]] + Insert(side, x, os[1..])
  }

  lemma InsertMembers(side: Side, x: Order, os: seq<Order>)
    ensures forall y :: y in Insert(side, x, os) <==> y == x || y in os
  {
    var r := Insert(side, x, os);
    forall y ensures y in r <==> y == x || y in os {
      assert y in r <==> y in multiset(r);
      assert y in os <==> y in multiset(os);
    }
  }

  /** Insertion keeps a ladder ordered. */
  lemma {:induction false} InsertOrdered(side: Side, x: Order, os: seq<Order>)
    requires PriceOrdered(side, os)
    ensures PriceOrdered(side, Insert(side, x, os))
    ensures |os| > 0 ==> Insert(side, x, os)[0] == x || Insert(side, x, os)[0] == os[0]
    decreases |os|
  {
    if |os| > 0 && !NoWorse(side, x.price, os[0].price) {
      var tail := os[1..];
      assert PriceOrdered(side, tail) by {
        forall i, j | 0 <= i < j < |tail|
          ensures NoWorse(side, tail[i].price, tail[j].price)
        {
          assert tail[i] == os[i + 1] && tail[j] == os[j + 1];
        }
      }
      InsertOrdered(side, x, tail);
      var r := Insert(side, x, tail);
      assert Insert(side, x, os) == [os[0]] + r;
      assert forall y :: y in tail ==> NoWorse(side, os[0].price, y.price) by {
        forall y | y in tail ensures NoWorse(side, os[0].price, y.price) {
          var m :| 0 <= m < |tail| && tail[m] == y;
          assert os[m + 1] == y;
        }
      }
      InsertMembers(side, x, tail);
      forall k | 0 <= k < |r|
        ensures NoWorse(side, os[0].price, r[k].price)
      {
        assert r[k] in r;
      }
    }
  }

  /** `list.sort(key=takePrice)` for asks and `reverse=True` for bids. */
  function SortByPrice(side: Side, os: seq<Order>): (r: seq<Order>)
    ensures |r| == |os|
    ensures multiset(r) == multiset(os)
  {
    if |os| == 0 then [] else
      assert os == [os[0]] + os[1..];
      Insert(side, os[0], SortByPrice(side, os[1..]))
  }

  /** The result of the sort is ordered best price first. */
  lemma {:induction false} SortOrdered(side: Side, os: seq<Order>)
    ensures PriceOrdered(side, SortByPrice(side, os))
    decreases |os|
  {
    if |os| > 0 {
      SortOrdered(side, os[1..]);
      InsertOrdered(side, os[0], SortByPrice(side, os[1..]));
    }
  }

  /** Sorting an already ordered ladder changes nothing. */
  lemma {:induction false} SortOrderedIsIdentity(side: Side, os: seq<Order>)
    requires PriceOrdered(side, os)
    ensures SortByPrice(side, os) == os
    decreases |os|
  {
    if |os| > 0 {
      var tail := os[1..];
      assert PriceOrdered(side, tail) by {
        forall i, j | 0 <= i < j < |tail|
          ensures NoWorse(side, tail[i].price, tail[j].price)
        {
          assert tail[i] == os[i + 1] && tail[j] == os[j + 1];
        }
      }
      SortOrderedIsIdentity(side, tail);
      if |tail| > 0 {
        assert NoWorse(side, os[0].price, tail[0].price);
      }
    }
  }
}
