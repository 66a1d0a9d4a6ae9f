/** Minimum and maximum of exact (real) numbers, and small facts about
    exact arithmetic that the solver needs spelled out, one inequality per
    lemma so that each proof stays linear. */
module RealArith {

  function RMin(a: real, b: real): real { if a <= b then a else b }

  function RMax(a: real, b: real): real { if a >= b then a else b }

  lemma MulLe(t: real, a: real, b: real)
    requires t > 0.0 && a <= b
    ensures t * a <= t * b
  {
    assert t * b - t * a == t * (b - a);
  }

  lemma MulLt(t: real, a: real, b: real)
    requires t > 0.0 && a < b
    ensures t * a < t * b
  {
    assert t * b - t * a == t * (b - a);
  }

  lemma DivMul(x: real, t: real)
    requires t != 0.0
    ensures t * (x / t) == x
  {
  }

  lemma MulDiv(x: real, t: real)
    requires t != 0.0
    ensures x * t / t == x
  {
  }

  lemma MulAdd(a: real, b: real, t: real)
    ensures (a + b) * t == a * t + b * t
  {
  }

  lemma DivAdd(a: real, b: real, t: real)
    requires t != 0.0
    ensures (a + b) / t == a / t + b / t
  {
  }

  /** Multiplying or dividing by a positive number keeps the strict sign. */
  lemma MulStrictSign(x: real, t: real)
    ensures t > 0.0 ==> (x * t > 0.0 <==> x > 0.0) && (x * t < 0.0 <==> x < 0.0)
  {
  }

  lemma DivStrictSign(x: real, t: real)
    requires t != 0.0
    ensures t > 0.0 ==> (x / t > 0.0 <==> x > 0.0) && (x / t < 0.0 <==> x < 0.0)
  {
  }

  /** Dividing by a positive number keeps the sign. */
  lemma DivSign(x: real, t: real)
    requires t > 0.0
    ensures x >= 0.0 ==> x / t >= 0.0
    ensures x <= 0.0 ==> x / t <= 0.0
  {
    var q := x / t;
    DivMul(x, t);
    if q < 0.0 {
      MulLt(t, q, 0.0);
    }
    if q > 0.0 {
      MulLt(t, 0.0, q);
    }
  }

  lemma DivAtLeast(t: real, n: real, x: real)
    requires t > 0.0 && n <= x / t
    ensures t * n <= x
  {
    MulLe(t, n, x / t);
  }

  lemma DivAtMost(t: real, n: real, x: real)
    requires t > 0.0 && x / t <= n
    ensures x <= t * n
  {
    MulLe(t, x / t, n);
  }

  lemma DivBelowNext(t: real, n: real, x: real)
    requires t > 0.0 && x / t < n + 1.0
    ensures x < t * n + t
  {
    MulLt(t, x / t, n + 1.0);
    assert t * (n + 1.0) == t * n + t;
  }

  lemma DivAbovePrevious(t: real, n: real, x: real)
    requires t > 0.0 && n - 1.0 < x / t
    ensures t * n - t < x
  {
    MulLt(t, n - 1.0, x / t);
    assert t * (n - 1.0) == t * n - t;
  }

  /** `n <= x / t < n + 1` puts `x - t * n` in `[0, t)`. */
  lemma RemainderAbove(t: real, n: real, x: real)
    requires t > 0.0 && n <= x / t < n + 1.0
    ensures 0.0 <= x - t * n < t
  {
    DivAtLeast(t, n, x);
    DivBelowNext(t, n, x);
  }

  /** `n - 1 < x / t <= n` puts `x - t * n` in `(-t, 0]`. */
  lemma RemainderBelow(t: real, n: real, x: real)
    requires t > 0.0 && n - 1.0 < x / t <= n
    ensures -t < x - t * n <= 0.0
  {
    DivAtMost(t, n, x);
    DivAbovePrevious(t, n, x);
  }

  /** At least one whole `t` fits into `x` when `x >= t > 0`. */
  lemma DivAtLeastOne(x: real, t: real)
    requires t > 0.0
    ensures x >= t ==> x / t >= 1.0
  {
    DivMul(x, t);
    if x / t < 1.0 {
      MulLt(t, x / t, 1.0);
    }
  }

  /** A quotient by a positive number lies between bounds whose multiples
      bracket the dividend. */
  lemma DivBetween(x: real, t: real, lo: real, hi: real)
    requires t > 0.0 && t * lo <= x <= t * hi
    ensures lo <= x / t <= hi
  {
    assert x / t - lo == (x - t * lo) / t;
    assert hi - x / t == (t * hi - x) / t;
    DivSign(x - t * lo, t);
    DivSign(t * hi - x, t);
  }
}
