/**
 This module models the arithmetic of JavaScript numbers that the slideshow
 controller relies on, restricted to integral values and, since the
 controller only ever divides by the catalog length, to positive divisors.

 JavaScript's `%` is a TRUNCATED remainder: its result takes the sign of the
 dividend. Dafny's `%` on `int` is Euclidean: its result is never negative.
 The two agree on non-negative dividends and disagree on negative ones, so
 the JavaScript operator is defined here explicitly and related to Dafny's.
 */
module JsNumber {

  /** A JavaScript number as far as the slideshow's position needs one: an
      integer, or `NaN`, which is what arithmetic on an empty catalog's
      length produces. */
  datatype Num = Int(value: int) | NaN

  /** JavaScript's `x + 1`: `NaN` stays `NaN`. */
  function Incr(x: Num): (r: Num)
    ensures r.NaN? <==> x.NaN?
    ensures x.Int? ==> r.value - x.value == 1
  {
    match x
    case Int(v) => Int(v + 1)
    case NaN => NaN
  }

  /** JavaScript's `x % n` for a non-negative integer `n`: `NaN` when `n` is 0
      or `x` is `NaN`, and otherwise the truncated remainder `Rem`. */
  function RemNum(x: Num, n: nat): (r: Num)
    ensures r.NaN? <==> (n == 0 || x.NaN?)
    ensures r.Int? ==> -(n as int) < r.value < n
    ensures r.Int? ==> r.value == Rem(x.value, n)
    ensures r.Int? && x.value >= 0 ==> r.value == x.value % n
  {
    if n == 0 || x.NaN? then NaN
    else
      RemVersusEuclidean(x.value, n);
      Int(Rem(x.value, n))
  }

  /** Truncated quotient: the integral part of `a / n`, rounded toward zero. */
  function Quot(a: int, n: int): int
    requires n > 0
  {
    if a >= 0 then a / n else -((-a) / n)
  }

  /** JavaScript's `a % n` for an integral `a` and a positive integral `n`.
      The result is smaller than `n` in magnitude, carries the sign of the
      dividend, and completes the truncated division of `a` by `n`. */
  function Rem(a: int, n: int): (r: int)
    requires n > 0
    ensures -n < r < n
    ensures a > 0 ==> r >= 0
    ensures a < 0 ==> r <= 0
    ensures a == n * Quot(a, n) + r
  {
    if a >= 0 then a % n
    else
      assert -a == n * ((-a) / n) + (-a) % n;
      assert n * (-((-a) / n)) == -(n * ((-a) / n));
      -((-a) % n)
  }

  /** A positive multiple of a positive `n` is at least `n`. */
  lemma {:induction false} PositiveMultipleAtLeast(n: int, k: int)
    requires n > 0 && k > 0
    ensures n * k >= n
    decreases k
  {
    if k > 1 {
      PositiveMultipleAtLeast(n, k - 1);
      assert n * k == n * (k - 1) + n;
    }
  }

  /** A multiple of `n` strictly between `-n` and `n` is zero. */
  lemma {:induction false} SmallMultipleIsZero(n: int, k: int)
    requires n > 0
    requires -n < n * k < n
    ensures k == 0
  {
    if k > 0 {
      PositiveMultipleAtLeast(n, k);
    } else if k < 0 {
      PositiveMultipleAtLeast(n, -k);
    }
  }

  /** The truncated remainder is unique: any decomposition `a == n * q + r`
      whose remainder is smaller than `n` in magnitude and carries the sign
      of `a` has `r == Rem(a, n)`. */
  lemma {:induction false} RemIsUnique(a: int, n: int, q: int, r: int)
    requires n > 0
    requires a == n * q + r
    requires -n < r < n
    requires a > 0 ==> r >= 0
    requires a < 0 ==> r <= 0
    ensures r == Rem(a, n)
  {
    var q', r' := Quot(a, n), Rem(a, n);
    assert -n < r' - r < n by {
      if a == 0 {
        assert r' == 0;
      }
    }
    assert n * (q - q') == r' - r by {
      assert n * (q - q') == n * q - n * q';
    }
    SmallMultipleIsZero(n, q - q');
  }

  /** Dafny's Euclidean remainder is unique too. */
  lemma {:induction false} EuclideanRemIsUnique(a: int, n: int, q: int, r: int)
    requires n > 0
    requires a == n * q + r
    requires 0 <= r < n
    ensures r == a % n
  {
    assert n * (q - a / n) == a % n - r;
    SmallMultipleIsZero(n, q - a / n);
  }

  /** How JavaScript's `%` relates to Dafny's `%` for a positive divisor:
      they agree on non-negative dividends and on multiples of `n`; on any
      other negative dividend the JavaScript result is `a % n - n`. */
  lemma {:induction false} RemVersusEuclidean(a: int, n: int)
    requires n > 0
    ensures a >= 0 ==> Rem(a, n) == a % n
    ensures a < 0 && a % n == 0 ==> Rem(a, n) == 0
    ensures a < 0 && a % n != 0 ==> Rem(a, n) == a % n - n
  {
    if a >= 0 {
      EuclideanRemIsUnique(a, n, Quot(a, n), Rem(a, n));
    } else if a % n == 0 {
      RemIsUnique(a, n, a / n, 0);
    } else {
      RemIsUnique(a, n, a / n + 1, a % n - n);
    }
  }

  /** A value already in `[0, n)` is its own Euclidean remainder. */
  lemma ModInRange(x: int, n: int)
    requires 0 <= x < n
    ensures x % n == x
  {
    EuclideanRemIsUnique(x, n, 0, x);
  }

  /** `n` itself wraps to 0. */
  lemma ModSelf(n: int)
    requires n > 0
    ensures n % n == 0
  {
    EuclideanRemIsUnique(n, n, 1, 0);
  }

  /** One step of `(i + 1) % n`: from `i >= -1` the JavaScript and Euclidean
      results coincide and lie in `[0, n)`; the last position wraps to 0 and
      every other position moves up by one. */
  lemma SuccessorRem(i: int, n: int)
    requires n > 0
    ensures i >= -1 ==> Rem(i + 1, n) == (i + 1) % n
    ensures i >= -1 ==> Rem(i + 1, n) % n == Rem(i + 1, n)
    ensures i == n - 1 ==> (i + 1) % n == 0
    ensures 0 <= i < n - 1 ==> (i + 1) % n == i + 1
  {
    RemVersusEuclidean(i + 1, n);
    if i >= -1 {
      ModInRange(Rem(i + 1, n), n);
    }
    if i == n - 1 {
      ModSelf(n);
    }
    if 0 <= i < n - 1 {
      ModInRange(i + 1, n);
    }
  }

  /** Reducing the left summand first does not change the Euclidean
      remainder of a sum. */
  lemma {:induction false} ModAddLeft(x: int, y: int, n: int)
    requires n > 0
    ensures (x % n + y) % n == (x + y) % n
  {
    var q, m := x / n, x % n;
    var q', r := (m + y) / n, (m + y) % n;
    assert x + y == n * q + (m + y);
    assert m + y == n * q' + r;
    assert x + y == n * (q + q') + r;
    EuclideanRemIsUnique(x + y, n, q + q', r);
  }
}
