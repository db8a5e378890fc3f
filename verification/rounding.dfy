/** Python's `round(x, 2)` on the exact value `x`: the nearest multiple of
    one hundredth, ties going to the even hundredth. */
module Rounding {

  /** The nearest integer to `y`, ties to even. */
  function RoundHalfEven(y: real): (n: int)
    ensures -0.5 <= n as real - y <= 0.5
    ensures y - y.Floor as real == 0.5 ==> n % 2 == 0
  {
    var lo := y.Floor;
    var f := y - lo as real;
    if f < 0.5 then lo
    else if f > 0.5 then lo + 1
    else if lo % 2 == 0 then lo
    else lo + 1
  }

  /** A real with at most two decimals, i.e. a whole number of hundredths. */
  predicate IsHundredths(x: real) {
    (x * 100.0).Floor as real == x * 100.0
  }

  /** `round(x, 2)`: within half a hundredth of `x`, and itself a whole number
      of hundredths. */
  function Round2(x: real): (r: real)
    ensures -0.005 <= r - x <= 0.005
    ensures IsHundredths(r)
    ensures x * 100.0 - (x * 100.0).Floor as real == 0.5 ==> (r * 100.0).Floor % 2 == 0
  {
    var n := RoundHalfEven(x * 100.0);
    assert (n as real / 100.0) * 100.0 == n as real;
    assert (n as real).Floor == n;
    n as real / 100.0
  }

  lemma RoundHalfEvenOfInt(n: int)
    ensures RoundHalfEven(n as real) == n
  {
    assert (n as real).Floor == n;
  }

  /** Rounding never reverses an order: `x <= y` implies `round(x) <= round(y)`. */
  lemma RoundHalfEvenMonotone(x: real, y: real)
    requires x <= y
    ensures RoundHalfEven(x) <= RoundHalfEven(y)
  {
    var a, b := x.Floor, y.Floor;
    assert a <= b;
    if a == b {
      assert x - a as real <= y - b as real;
    } else {
      assert a + 1 <= b;
    }
  }

  /** `round(x, 2) <= round(y, 2)` whenever `x <= y`. */
  lemma Round2Monotone(x: real, y: real)
    requires x <= y
    ensures Round2(x) <= Round2(y)
  {
    RoundHalfEvenMonotone(x * 100.0, y * 100.0);
  }

  /** A value that already has two decimals is left as it is. */
  lemma Round2OfHundredths(x: real)
    requires IsHundredths(x)
    ensures Round2(x) == x
  {
    var n := (x * 100.0).Floor;
    RoundHalfEvenOfInt(n);
    assert x * 100.0 == n as real;
  }

  /** Rounding twice is rounding once. */
  lemma Round2Idempotent(x: real)
    ensures Round2(Round2(x)) == Round2(x)
  {
    Round2OfHundredths(Round2(x));
  }

  /** A percentage strictly between 0 and 100 rounds into [0, 100]. */
  lemma Round2Percent(x: real)
    requires 0.0 < x < 100.0
    ensures 0.0 <= Round2(x) <= 100.0
  {
    Round2Monotone(0.0, x);
    Round2Monotone(x, 100.0);
    Round2OfHundredths(0.0);
    Round2OfHundredths(100.0);
  }
}
