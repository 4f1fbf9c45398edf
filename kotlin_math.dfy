/**
 * The integer and floating-point helpers the layout code relies on, restated
 * over Dafny's unbounded `int` and exact `real`.
 */
module KotlinMath {

  /**
   * Kotlin's `Int.div(2)`: division by two truncating toward zero, so that an
   * odd negative operand rounds up (`(-3).div(2) == -1`), unlike Dafny's `/`.
   */
  function Half(a: int): (q: int)
    ensures a >= 0 ==> 0 <= a - 2 * q <= 1
    ensures a < 0 ==> -1 <= a - 2 * q <= 0
  {
    if a >= 0 then a / 2 else -((-a) / 2)
  }

  /**
   * Kotlin's `Float.roundToInt()`: the nearest integer, ties toward positive
   * infinity (`Math.round`, that is `floor(x + 1/2)`).
   */
  function Round(x: real): (r: int)
    ensures x - 0.5 < r as real <= x + 0.5
  {
    (x + 0.5).Floor
  }

  /** A real lying between two integers rounds to a value between them. */
  lemma RoundBetween(lo: int, hi: int, x: real)
    requires lo as real <= x <= hi as real
    ensures lo <= Round(x) <= hi
  {
  }

  /** Scaling a difference by a fraction in [0, 1] stays between 0 and the difference. */
  lemma ScaleBetween(d: int, fraction: real, x: real)
    requires 0.0 <= fraction <= 1.0
    requires x == d as real * fraction
    ensures d >= 0 ==> 0.0 <= x <= d as real
    ensures d < 0 ==> d as real <= x <= 0.0
  {
    if d >= 0 {
      assert d as real * fraction <= d as real * 1.0;
    } else {
      assert d as real * 1.0 <= d as real * fraction;
    }
  }

  /**
   * Compose's `lerp(start: Int, stop: Int, fraction: Float): Int`. Its source
   * is not part of this model; it is ASSUMED here to be
   * `start + ((stop - start) * fraction).roundToInt()`.
   */
  function Lerp(start: int, stop: int, fraction: real): (r: int)
    ensures fraction == 0.0 ==> r == start
    ensures fraction == 1.0 ==> r == stop
    ensures 0.0 <= fraction <= 1.0 && start <= stop ==> start <= r <= stop
    ensures 0.0 <= fraction <= 1.0 && stop <= start ==> stop <= r <= start
  {
    var d := (stop - start) as real * fraction;
    assert (fraction == 0.0 ==> Round(d) == 0) && (fraction == 1.0 ==> Round(d) == stop - start)
      && (0.0 <= fraction <= 1.0 && start <= stop ==> 0 <= Round(d) <= stop - start)
      && (0.0 <= fraction <= 1.0 && stop <= start ==> stop - start <= Round(d) <= 0) by {
      LerpStep(stop - start, fraction);
    }
    start + Round(d)
  }

  /** The facts about the rounded step of `Lerp` that its contract needs. */
  lemma LerpStep(d: int, fraction: real)
    ensures fraction == 0.0 ==> Round(d as real * fraction) == 0
    ensures fraction == 1.0 ==> Round(d as real * fraction) == d
    ensures 0.0 <= fraction <= 1.0 && d >= 0 ==> 0 <= Round(d as real * fraction) <= d
    ensures 0.0 <= fraction <= 1.0 && d < 0 ==> d <= Round(d as real * fraction) <= 0
  {
    var x := d as real * fraction;
    if fraction == 0.0 {
      assert x == 0.0;
      RoundBetween(0, 0, x);
    } else if fraction == 1.0 {
      assert x == d as real;
      RoundBetween(d, d, x);
    }
    if 0.0 <= fraction <= 1.0 {
      ScaleBetween(d, fraction, x);
      if d >= 0 {
        RoundBetween(0, d, x);
      } else {
        RoundBetween(d, 0, x);
      }
    }
  }
}
