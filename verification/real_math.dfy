/** Python's float helpers used by the calendar, over exact reals:
    `math.floor`, `int()` on a float (truncation toward zero) and `%` with a
    positive divisor (a floored remainder, never negative). */
module RealMath {

  /** `math.floor(x)`: the greatest integer not above `x`. */
  function Floor(x: real): (r: int)
    ensures r as real <= x < r as real + 1.0
  {
    x.Floor
  }

  /** `int(x)` on a float: drops the fractional part, rounding toward zero. */
  function Trunc(x: real): (r: int)
    ensures 0.0 <= x ==> 0 <= r && r as real <= x < r as real + 1.0
    ensures x < 0.0 ==> r <= 0 && r as real - 1.0 < x <= r as real
  {
    if x < 0.0 then -Floor(-x) else Floor(x)
  }

  /** `x % m` for a positive divisor `m`: the remainder of floored division,
      in [0, m). */
  function RealMod(x: real, m: real): (r: real)
    requires 0.0 < m
    ensures 0.0 <= r < m
  {
    FloorDivBounds(x, m);
    x - (Floor(x / m) as real) * m
  }

  /** `math.floor(x / m)` copies of `m` fit into `x`, one more does not. */
  lemma FloorDivBounds(x: real, m: real)
    requires 0.0 < m
    ensures (Floor(x / m) as real) * m <= x < (Floor(x / m) as real) * m + m
  {
    var q := Floor(x / m) as real;
    var y := x / m;
    assert y * m == x;
    MulMonotone(q, y, m);
    MulMonotone(y, q + 1.0, m);
    assert y * m != (q + 1.0) * m;
    assert (q + 1.0) * m == q * m + m;
    assert x < (q + 1.0) * m;
    assert x < q * m + m;
  }

  lemma MulMonotone(a: real, b: real, m: real)
    requires a <= b && 0.0 < m
    ensures a * m <= b * m
  {
  }

  /** An integer bracketing `x` within one unit is its floor. */
  lemma FloorUnique(x: real, k: int)
    requires k as real <= x < k as real + 1.0
    ensures Floor(x) == k
  {
  }

  /** The remainder is the unique `r` in [0, m) with `x - r` a whole multiple of `m`. */
  lemma RealModUnique(x: real, m: real, k: int, r: real)
    requires 0.0 < m && 0.0 <= r < m
    requires x == m * k as real + r
    ensures RealMod(x, m) == r
  {
    assert x / m == k as real + r / m;
    assert 0.0 <= r / m < 1.0 by {
      assert r / m * m == r;
      if r / m >= 1.0 {
        MulMonotone(1.0, r / m, m);
      }
    }
    FloorUnique(x / m, k);
  }

  /** `x - x % m` is a whole multiple of `m`. */
  lemma RealModQuotient(x: real, m: real)
    requires 0.0 < m
    ensures x - RealMod(x, m) == (Floor(x / m) as real) * m
  {
  }

  /** The remainder ignores whole multiples of the divisor. */
  lemma {:induction false} RealModShift(x: real, m: real, k: int)
    requires 0.0 < m
    ensures RealMod(x + m * k as real, m) == RealMod(x, m)
  {
    RealModQuotient(x, m);
    var q := Floor(x / m);
    RealModUnique(x + m * k as real, m, q + k, RealMod(x, m));
  }

  /** `x` lies on the grid of whole multiples of `m`. */
  predicate OnGrid(x: real, m: real)
    requires 0.0 < m
  {
    RealMod(x, m) == 0.0
  }

  /** Being on the grid means being `m` times some integer. */
  lemma OnGridIntro(x: real, m: real, k: int)
    requires 0.0 < m && x == m * k as real
    ensures OnGrid(x, m)
  {
    RealModUnique(x, m, k, 0.0);
  }
}
