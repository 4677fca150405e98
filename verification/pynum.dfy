/**
 The Python numeric built-ins the two resizing scripts rely on, over exact reals
 (Dafny's `real` is the rationals, so every ratio the scripts compute is exact here):
 - `round(x)` with one argument: nearest integer, ties to the even neighbour;
 - `int(x)` on a float: truncation toward zero;
 - `min(a, b)`: the first argument unless the second is strictly smaller.
 */
module PyNum {

  /** Python's `round(x)`: the nearest integer, halves going to the even neighbour. */
  function PyRound(x: real): (r: int)
    ensures x - 0.5 <= r as real <= x + 0.5
    ensures r as real - x == 0.5 || x - r as real == 0.5 ==> r % 2 == 0
  {
    var f := x.Floor;
    var frac := x - f as real;
    if frac < 0.5 then f
    else if frac > 0.5 then f + 1
    else if f % 2 == 0 then f
    else f + 1
  }

  /** Python's `int(x)` on a float: drops the fractional part, toward zero. */
  function Trunc(x: real): (r: int)
    ensures 0.0 <= x ==> 0 <= r && r as real <= x < r as real + 1.0
    ensures x < 0.0 ==> r <= 0 && r as real - 1.0 < x <= r as real
  {
    if 0.0 <= x then x.Floor else -((-x).Floor)
  }

  /** Python's two-argument `min`: keeps the first argument on a tie. */
  function PyMin(a: real, b: real): (m: real)
    ensures m <= a && m <= b
    ensures m == a || m == b
  {
    if b < a then b else a
  }

  /** The two contract clauses of `PyRound` pin its result down: no other integer meets them. */
  lemma PyRoundUnique(x: real, k: int)
    requires x - 0.5 <= k as real <= x + 0.5
    requires k as real - x == 0.5 || x - k as real == 0.5 ==> k % 2 == 0
    ensures k == PyRound(x)
  {
  }

  /** Rounding a value that is already an integer returns it. */
  lemma PyRoundOfInt(n: int)
    ensures PyRound(n as real) == n
  {
  }

  /** Rounding half of a non-negative integer `p`: the result is `p/2` or one of the two
      integers next to it, and either way it splits `p` into two parts differing by at most one. */
  lemma PyRoundHalf(p: int)
    requires 0 <= p
    ensures var k := PyRound(p as real / 2.0);
      0 <= k <= p && (2 * k == p || 2 * k == p - 1 || 2 * k == p + 1)
    ensures var k := PyRound(p as real / 2.0);
      2 * k == p - 1 <==> p % 4 == 1
    ensures var k := PyRound(p as real / 2.0);
      2 * k == p + 1 <==> p % 4 == 3
  {
    var k := PyRound(p as real / 2.0);
    assert 2.0 * (k as real) - 1.0 <= p as real <= 2.0 * (k as real) + 1.0;
    assert p - 1 <= 2 * k <= p + 1;
    if p % 2 == 1 {
      assert 2 * k != p;
      if 2 * k == p - 1 {
        assert p as real / 2.0 - k as real == 0.5;
      } else {
        assert k as real - p as real / 2.0 == 0.5;
      }
    }
  }

  /** `int(a/2 - b/2)` for `0 <= b <= a`: the floor of the non-negative half-difference. */
  lemma TruncHalfDifference(a: int, b: int)
    requires 0 <= b <= a
    ensures var k := Trunc(a as real / 2.0 - b as real / 2.0);
      2 * k == a - b || 2 * k == a - b - 1
  {
    var x := a as real / 2.0 - b as real / 2.0;
    assert x == (a - b) as real / 2.0;
    var k := Trunc(x);
    assert 2.0 * (k as real) <= (a - b) as real < 2.0 * (k as real) + 2.0;
  }

  /** A quotient of integers with a positive divisor compares to an integer as the
      cross-multiplied integers do. */
  lemma RatioLe(a: int, c: int, m: int)
    requires 0 < c
    ensures (a as real) / (c as real) <= m as real <==> a <= m * c
  {
    var q := (a as real) / (c as real);
    assert q * (c as real) == a as real;
    if q <= m as real {
      assert q * (c as real) <= (m as real) * (c as real);
    } else {
      assert q * (c as real) > (m as real) * (c as real);
    }
  }

  /** Rounding a quotient of integers stays within half a divisor of the numerator once
      scaled back: `|round(a/c)*c - a| <= c/2`. */
  lemma PyRoundRatio(a: int, c: int)
    requires 0 < c
    ensures var k := PyRound((a as real) / (c as real));
      -c <= 2 * (k * c - a) <= c
  {
    var q := (a as real) / (c as real);
    ScaledBackWithinHalf(q, PyRound(q), a, c);
  }

  /** If `q*c == a` and the integer `k` is within one half of `q`, then `k*c` is within
      `c/2` of `a`. */
  lemma ScaledBackWithinHalf(q: real, k: int, a: int, c: int)
    requires 0 < c
    requires q * (c as real) == a as real
    requires k as real - 0.5 <= q <= k as real + 0.5
    ensures -c <= 2 * (k * c - a) <= c
  {
    var cr := c as real;
    var kr := k as real;
    calc {
      (k * c) as real - 0.5 * cr;
      (kr - 0.5) * cr;
    <= { MulMonotone(kr - 0.5, q, cr); }
      q * cr;
      a as real;
    }
    calc {
      a as real;
      q * cr;
    <= { MulMonotone(q, kr + 0.5, cr); }
      (kr + 0.5) * cr;
      (k * c) as real + 0.5 * cr;
    }
  }

  /** Multiplying both sides of `x <= y` by a positive factor. */
  lemma MulMonotone(x: real, y: real, c: real)
    requires 0.0 < c
    requires x <= y
    ensures x * c <= y * c
  {
  }

  /** Rounding a non-negative quotient `a/c` that is at most the integer `m`: the result lies in
      `0..m` and, scaled back by `c`, within `c/2` of `a`. */
  lemma RoundedRatioBounds(a: int, c: int, m: int)
    requires 0 < c && 0 <= a <= m * c
    ensures var k := PyRound((a as real) / (c as real));
      0 <= k <= m && -c <= 2 * (k * c - a) <= c
  {
    var q := (a as real) / (c as real);
    PyRoundRatio(a, c);
    RatioLe(a, c, m);
    assert 0.0 <= q by {
      MulMonotone(0.0, a as real, 1.0 / (c as real));
      assert q == (a as real) * (1.0 / (c as real));
    }
  }

  /** `w * (n / c)` is the quotient `(n*w) / c`. */
  lemma MulRatio(w: int, n: int, c: int)
    requires 0 < c
    ensures (w as real) * ((n as real) / (c as real)) == ((n * w) as real) / (c as real)
  {
  }

  /** A multiple of `c` divided by `c`. */
  lemma RatioOfMultiple(m: int, c: int)
    requires 0 < c
    ensures ((m * c) as real) / (c as real) == m as real
  {
  }

  /** Half of the padding `a - b`, once by `round((a - b) / 2)` and once by `int(a/2 - b/2)`:
      rounding gives the truncated value or one more, and the same value exactly unless
      `(a - b) % 4 == 3`. */
  lemma RoundVersusTruncHalf(a: int, b: int)
    requires 0 <= b <= a
    ensures var r := PyRound(((a - b) as real) / 2.0);
      var t := Trunc((a as real) / 2.0 - (b as real) / 2.0);
      0 <= r - t <= 1 && (r == t <==> (a - b) % 4 != 3)
  {
    PyRoundHalf(a - b);
    TruncHalfDifference(a, b);
  }

  /** `n/c < m/d` for positive `c`, `d` compares as `n*d < m*c`. */
  lemma CompareRatios(n: int, c: int, m: int, d: int)
    requires 0 < c && 0 < d
    ensures (n as real) / (c as real) < (m as real) / (d as real) <==> n * d < m * c
  {
    var x := (n as real) / (c as real);
    var y := (m as real) / (d as real);
    var cd := (c as real) * (d as real);
    assert x * cd == (n * d) as real;
    assert y * cd == (m * c) as real;
    if x < y {
      MulMonotone(x, y, cd);
      assert x * cd != y * cd;
    } else {
      MulMonotone(y, x, cd);
    }
  }
}
