/** Sequence vocabulary: order-preserving subsequences and sums. */
module Seqs {

  /** `a` can be obtained from `b` by deleting elements, keeping order. */
  predicate IsSubsequence<T(==)>(a: seq<T>, b: seq<T>)
    decreases |b|
  {
    if |a| == 0 then true
    else if |b| == 0 then false
    else if a[0] == b[0] then IsSubsequence(a[1..], b[1..])
    else IsSubsequence(a, b[1..])
  }

  lemma {:induction false} SubsequenceOfSelf<T>(a: seq<T>)
    ensures IsSubsequence(a, a)
    decreases |a|
  {
    if |a| > 0 {
      SubsequenceOfSelf(a[1..]);
    }
  }

  lemma {:induction false} SubsequenceMembers<T>(a: seq<T>, b: seq<T>)
    requires IsSubsequence(a, b)
    ensures forall x :: x in a ==> x in b
    ensures |a| <= |b|
    decreases |b|
  {
    if |a| > 0 && |b| > 0 {
      if a[0] == b[0] {
        SubsequenceMembers(a[1..], b[1..]);
        assert forall x :: x in a ==> x == a[0] || x in a[1..];
      } else {
        SubsequenceMembers(a, b[1..]);
      }
    }
  }

  /** Prepending the same element keeps a subsequence a subsequence. */
  lemma ConsSubsequence<T>(x: T, a: seq<T>, b: seq<T>)
    requires IsSubsequence(a, b)
    ensures IsSubsequence([x] + a, [x] + b)
  {
    assert ([x] + a)[1..] == a;
    assert ([x] + b)[1..] == b;
  }

  /** Dropping the head of a subsequence keeps it a subsequence. */
  lemma {:induction false} SubsequenceTail<T>(a: seq<T>, b: seq<T>)
    requires |a| > 0 && IsSubsequence(a, b)
    ensures IsSubsequence(a[1..], b)
    decreases |b|, |a|
  {
    if a[0] == b[0] {
      SkipHead(a[1..], b);
    } else {
      SubsequenceTail(a, b[1..]);
      SkipHead(a[1..], b);
    }
  }

  /** A subsequence of `b`'s tail is a subsequence of `b`. */
  lemma {:induction false} SkipHead<T>(a: seq<T>, b: seq<T>)
    requires |b| > 0 && IsSubsequence(a, b[1..])
    ensures IsSubsequence(a, b)
    decreases |b|, |a|
  {
    if |a| > 0 && a[0] == b[0] {
      SubsequenceTail(a, b[1..]);
    }
  }

  /** Prepending at most one element to the larger sequence, and optionally
      the same element to the smaller one, keeps the relation. */
  lemma ExtendSubsequence<T>(p: seq<T>, q: seq<T>, a: seq<T>, b: seq<T>)
    requires |q| <= 1 && (p == q || p == [])
    requires IsSubsequence(a, b)
    ensures IsSubsequence(p + a, q + b)
  {
    if |q| == 1 {
      if p == q {
        assert p + a == [q[0]] + a && q + b == [q[0]] + b;
        ConsSubsequence(q[0], a, b);
      } else {
        assert p + a == a;
        assert (q + b)[1..] == b;
        SkipHead(a, q + b);
      }
    } else {
      assert p + a == a && q + b == b;
    }
  }

  /** Subsequence is transitive. */
  lemma {:induction false} SubsequenceTrans<T>(a: seq<T>, b: seq<T>, c: seq<T>)
    requires IsSubsequence(a, b) && IsSubsequence(b, c)
    ensures IsSubsequence(a, c)
    decreases |c|
  {
    if |a| == 0 {
    } else if |c| == 0 {
    } else if |b| == 0 {
    } else if b[0] == c[0] {
      if a[0] == b[0] {
        SubsequenceTrans(a[1..], b[1..], c[1..]);
      } else {
        SubsequenceTrans(a, b[1..], c[1..]);
        SkipHead(a, c);
      }
    } else {
      SubsequenceTrans(a, b, c[1..]);
      SkipHead(a, c);
    }
  }

  /** A subsequence of a prefix (or any slice) of `b` is a subsequence of `b`. */
  lemma {:induction false} SubsequenceOfPrefix<T>(a: seq<T>, b: seq<T>, k: nat)
    requires k <= |b|
    requires IsSubsequence(a, b[..k])
    ensures IsSubsequence(a, b)
  {
    PrefixIsSubsequence(b, k);
    SubsequenceTrans(a, b[..k], b);
  }

  lemma {:induction false} PrefixIsSubsequence<T>(b: seq<T>, k: nat)
    requires k <= |b|
    ensures IsSubsequence(b[..k], b)
    decreases |b|
  {
    if k == 0 {
    } else {
      assert b[..k][0] == b[0];
      assert b[..k][1..] == b[1..][..k - 1];
      PrefixIsSubsequence(b[1..], k - 1);
    }
  }

  /** `[x]` is a subsequence of anything that ends in `x`. */
  lemma {:induction false} LastIsSubsequence<T>(b: seq<T>, x: T)
    ensures IsSubsequence([x], b + [x])
    decreases |b|
  {
    if |b| > 0 && b[0] != x {
      LastIsSubsequence(b[1..], x);
      assert (b + [x])[1..] == b[1..] + [x];
    }
  }

  /** Appending the same element to both sides keeps a subsequence. */
  lemma {:induction false} SubsequenceSnoc<T>(a: seq<T>, b: seq<T>, x: T)
    requires IsSubsequence(a, b)
    ensures IsSubsequence(a + [x], b + [x])
    decreases |b|
  {
    if |a| == 0 {
      assert a + [x] == [x];
      LastIsSubsequence(b, x);
    } else {
      assert (a + [x])[0] == a[0] && (a + [x])[1..] == a[1..] + [x];
      assert (b + [x])[0] == b[0] && (b + [x])[1..] == b[1..] + [x];
      if a[0] == b[0] {
        SubsequenceSnoc(a[1..], b[1..], x);
      } else {
        SubsequenceSnoc(a, b[1..], x);
      }
    }
  }

  /** A subsequence of `b` is a subsequence of `b` with more appended. */
  lemma SubsequenceExtend<T>(a: seq<T>, b: seq<T>, c: seq<T>)
    requires IsSubsequence(a, b)
    ensures IsSubsequence(a, b + c)
  {
    assert (b + c)[..|b|] == b;
    PrefixIsSubsequence(b + c, |b|);
    SubsequenceTrans(a, b, b + c);
  }

  /** Number of `true` flags. */
  function CountTrue(flags: seq<bool>): (n: nat)
    ensures n <= |flags|
  {
    if |flags| == 0 then 0 else (if flags[0] then 1 else 0) + CountTrue(flags[1..])
  }

  /** The elements of `xs` whose flag equals `want`, in order, where the
      flags may stop short of `xs` and the missing ones count as `false`. */
  function Pick<T>(xs: seq<T>, flags: seq<bool>, want: bool): (r: seq<T>)
    requires |flags| <= |xs|
    ensures |r| == if want then CountTrue(flags) else |xs| - CountTrue(flags)
  {
    if |xs| == 0 then []
    else if |flags| == 0 then (if want then [] else xs)
    else if flags[0] == want then [xs[0]] + Pick(xs[1..], flags[1..], want)
    else Pick(xs[1..], flags[1..], want)
  }

  lemma MultisetCons<T>(x: T, s: seq<T>)
    ensures multiset([x] + s) == multiset{x} + multiset(s)
  {
  }

  /** Splitting by a flag loses and duplicates nothing. */
  lemma {:induction false} PickSplits<T>(xs: seq<T>, flags: seq<bool>)
    requires |flags| <= |xs|
    ensures multiset(Pick(xs, flags, true)) + multiset(Pick(xs, flags, false)) == multiset(xs)
    decreases |xs|
  {
    if |xs| > 0 && |flags| > 0 {
      var x, tx, tf := xs[0], xs[1..], flags[1..];
      PickSplits(tx, tf);
      var t, f := Pick(tx, tf, true), Pick(tx, tf, false);
      assert xs == [x] + tx;
      MultisetCons(x, tx);
      if flags[0] {
        MultisetCons(x, t);
      } else {
        MultisetCons(x, f);
      }
    }
  }

  /** Each half keeps the order of `xs`. */
  lemma {:induction false} PickKeepsOrder<T>(xs: seq<T>, flags: seq<bool>, want: bool)
    requires |flags| <= |xs|
    ensures IsSubsequence(Pick(xs, flags, want), xs)
    decreases |xs|
  {
    if |xs| > 0 {
      if |flags| == 0 {
        SubsequenceOfSelf(xs);
      } else {
        PickKeepsOrder(xs[1..], flags[1..], want);
        var h := if flags[0] == want then [xs[0]] else [];
        var rest := Pick(xs[1..], flags[1..], want);
        assert xs == [xs[0]] + xs[1..];
        assert Pick(xs, flags, want) == h + rest by {
          if flags[0] != want {
            assert h + rest == rest;
          }
        }
        ExtendSubsequence(h, [xs[0]], rest, xs[1..]);
      }
    }
  }

  /** With a flag for every element, a half holds exactly the elements
      whose flag is `want`. */
  lemma {:induction false} PickMembers<T>(xs: seq<T>, flags: seq<bool>, want: bool)
    requires |flags| == |xs|
    ensures forall x :: x in Pick(xs, flags, want) <==>
      exists k :: 0 <= k < |xs| && flags[k] == want && xs[k] == x
    decreases |xs|
  {
    if |xs| > 0 {
      var tx, tf := xs[1..], flags[1..];
      PickMembers(tx, tf, want);
      var rest := Pick(tx, tf, want);
      var h := if flags[0] == want then [xs[0]] else [];
      assert Pick(xs, flags, want) == h + rest by {
        if flags[0] != want {
          assert h + rest == rest;
        }
      }
      forall x
        ensures x in h + rest <==> exists k :: 0 <= k < |xs| && flags[k] == want && xs[k] == x
      {
        if x in rest {
          var k :| 0 <= k < |tx| && tf[k] == want && tx[k] == x;
          assert flags[k + 1] == want && xs[k + 1] == x;
        }
        if exists k :: 0 <= k < |xs| && flags[k] == want && xs[k] == x {
          var k :| 0 <= k < |xs| && flags[k] == want && xs[k] == x;
          if k > 0 {
            assert tf[k - 1] == want && tx[k - 1] == x;
          }
        }
      }
    }
  }

  /** When every element carries the flag, the half is the whole list. */
  lemma {:induction false} PickAll<T>(xs: seq<T>, flags: seq<bool>, want: bool)
    requires |flags| == |xs|
    requires forall k :: 0 <= k < |flags| ==> flags[k] == want
    ensures Pick(xs, flags, want) == xs
    decreases |xs|
  {
    if |xs| > 0 {
      PickAll(xs[1..], flags[1..], want);
      assert xs == [xs[0]] + xs[1..];
    }
  }

  /** Sum of a sequence of reals. */
  function Sum(s: seq<real>): real
  {
    if |s| == 0 then 0.0 else s[0] + Sum(s[1..])
  }

  lemma {:induction false} SumConcat(a: seq<real>, b: seq<real>)
    ensures Sum(a + b) == Sum(a) + Sum(b)
    decreases |a|
  {
    if |a| == 0 {
      assert a + b == b;
    } else {
      assert (a + b)[1..] == a[1..] + b;
      SumConcat(a[1..], b);
    }
  }

  function Min(a: int, b: int): int { if a <= b then a else b }
  function Max(a: int, b: int): int { if a >= b then a else b }
}
