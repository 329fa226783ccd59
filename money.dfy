/**
 * The two big.js steps the wage engine relies on, over exact rationals:
 * rounding half-up to a number of decimal places (big.js rounding mode 1,
 * which takes ties away from zero), used by `round(2)` and by `div`, which
 * keeps 20 decimal places. A number of decimal places is given by its
 * scale, 10 to that power.
 */
module Money {

  const Cents: real := 100.0
  /** big.js `Big.DP`: `div` keeps 20 decimal places. */
  const DivisionScale: real := 100000000000000000000.0

  /** `x` has no more decimals than `scale` allows. */
  predicate HasDecimals(x: real, scale: real) {
    (x * scale).Floor as real == x * scale
  }

  /** An amount in whole cents, which `toFixed(2)` prints without change. */
  predicate IsCents(x: real) {
    HasDecimals(x, Cents)
  }

  lemma ScaleBack(k: int, p: real)
    requires p >= 1.0
    ensures (k as real / p) * p == k as real
    ensures HasDecimals(k as real / p, p)
  {
    assert ((k as real / p) * p).Floor == k;
  }

  lemma Scaled(x: real, scale: real)
    requires HasDecimals(x, scale)
    ensures (x * scale).Floor as real == x * scale
  {
  }

  lemma ScaledLe(a: real, b: real, p: real)
    requires p > 0.0
    ensures a <= b <==> a * p <= b * p
  {
    if a <= b {
      assert (b - a) * p >= 0.0;
    } else {
      assert (a - b) * p > 0.0;
    }
  }

  lemma ScaledLt(a: real, b: real, p: real)
    requires p > 0.0
    ensures a < b <==> a * p < b * p
  {
    ScaledLe(b, a, p);
  }

  lemma HalfStep(r: real, p: real)
    requires p >= 1.0
    ensures (r - 0.5 / p) * p == r * p - 0.5
    ensures (r + 0.5 / p) * p == r * p + 0.5
  {
  }

  lemma FloorBounds(y: real)
    ensures y.Floor as real <= y < y.Floor as real + 1.0
  {
  }

  /** Rounds a non-negative amount half-up to the decimals of `scale`. */
  function RoundMagnitude(x: real, scale: real): (r: real)
    requires x >= 0.0 && scale >= 1.0
    ensures HasDecimals(r, scale) && r >= 0.0
    ensures r - 0.5 / scale <= x < r + 0.5 / scale
  {
    var y := x * scale + 0.5;
    var k := y.Floor;
    var r := k as real / scale;
    ScaleBack(k, scale);
    FloorBounds(y);
    HalfStep(r, scale);
    ScaledLe(r - 0.5 / scale, x, scale);
    ScaledLt(x, r + 0.5 / scale, scale);
    ScaledLe(0.0, x, scale);
    ScaledLe(0.0, r, scale);
    r
  }

  lemma NegatedDecimals(x: real, scale: real)
    requires HasDecimals(x, scale)
    ensures HasDecimals(-x, scale)
  {
    var k := (x * scale).Floor;
    assert (-x) * scale == -(x * scale) == (-k) as real;
  }

  /**
   * big.js `round` with rounding mode ROUND_HALF_UP: the nearest amount
   * with the decimals of `scale`, ties away from zero.
   */
  function RoundHalfUp(x: real, scale: real): (r: real)
    requires scale >= 1.0
    ensures HasDecimals(r, scale)
    ensures x >= 0.0 ==> r - 0.5 / scale <= x < r + 0.5 / scale
    ensures x < 0.0 ==> r - 0.5 / scale < x <= r + 0.5 / scale
    ensures (x >= 0.0 ==> r >= 0.0) && (x <= 0.0 ==> r <= 0.0)
  {
    if x >= 0.0 then RoundMagnitude(x, scale)
    else
      var m := RoundMagnitude(-x, scale);
      NegatedDecimals(m, scale);
      -m
  }

  /** `round(2)`: the nearest whole number of cents, half a cent going up. */
  function Round2(x: real): (r: real)
    ensures IsCents(r)
    ensures x >= 0.0 ==> r - 0.005 <= x < r + 0.005
    ensures x < 0.0 ==> r - 0.005 < x <= r + 0.005
  {
    RoundHalfUp(x, Cents)
  }

  /**
   * `new Big(minutes).div(60)`: the quotient kept to 20 decimal places, which
   * is the exact quotient whenever that has no more decimals.
   */
  function Div60(minutes: real): (r: real)
    ensures HasDecimals(r, DivisionScale)
    ensures minutes >= 0.0 ==> 0.0 <= r && r - 0.5 / DivisionScale <= minutes / 60.0 < r + 0.5 / DivisionScale
    ensures minutes <= 0.0 ==> r <= 0.0
    ensures HasDecimals(minutes / 60.0, DivisionScale) ==> r == minutes / 60.0
  {
    KeepsOwnDecimals(minutes / 60.0, DivisionScale);
    RoundHalfUp(minutes / 60.0, DivisionScale)
  }

  /**
   * A whole number of minutes divisible by 3 is a whole number of cents of
   * an hour, so `div(60)` keeps it exactly.
   */
  lemma ThirdsHaveDecimals(minutes: int)
    ensures minutes % 3 == 0 ==> HasDecimals(minutes as real / 60.0, DivisionScale)
  {
    if minutes % 3 == 0 {
      var q := minutes / 3;
      var k := q * 5000000000000000000;
      assert minutes as real == 3.0 * q as real;
      assert k as real / DivisionScale == q as real / 20.0;
      assert minutes as real / 60.0 == k as real / DivisionScale;
      ScaleBack(k, DivisionScale);
    }
  }

  /**
   * `r` is within `factor` times half a unit of the 20th decimal (5e-21) of `exact`:
   * the error `div(60)` leaves in a quotient that is then multiplied by `factor`.
   */
  predicate WithinDivisionError(r: real, exact: real, factor: real) {
    r - factor * 0.000000000000000000005 <= exact <= r + factor * 0.000000000000000000005
  }

  /** Division errors add up: the sum of two near values is near the sum, within the summed factors. */
  lemma WithinSum(a: real, x: real, f: real, b: real, y: real, g: real)
    ensures WithinDivisionError(a, x, f) && WithinDivisionError(b, y, g) ==> WithinDivisionError(a + b, x + y, f + g)
  {
  }

  /**
   * Hours from `div(60)` times two non-negative factors stay within the
   * product of the factors times half a unit of the 20th decimal of the
   * exact pay.
   */
  lemma PayWithinDivisionError(minutes: real, rate: real, extra: real)
    ensures minutes >= 0.0 && rate >= 0.0 && extra >= 0.0 ==> Div60(minutes) * rate * extra >= 0.0
    ensures minutes >= 0.0 && rate >= 0.0 && extra >= 0.0 ==>
      WithinDivisionError(Div60(minutes) * rate * extra, minutes / 60.0 * rate * extra, rate * extra)
  {
    var hours := Div60(minutes);
    NonNegativeProduct(hours, rate);
    NonNegativeProduct(hours * rate, extra);
    assert 0.5 / DivisionScale == 0.000000000000000000005;
    ScaledBound(hours, minutes / 60.0, 0.000000000000000000005, rate * extra);
    assert hours * rate * extra == hours * (rate * extra);
    assert minutes / 60.0 * rate * extra == (minutes / 60.0) * (rate * extra);
  }

  /** Pay on a minute count divisible by 3 is the exact pay. */
  lemma ThirdsPayExact(minutes: int, rate: real, extra: real)
    ensures minutes % 3 == 0 ==> Div60(minutes as real) * rate * extra == minutes as real / 60.0 * rate * extra
  {
    ThirdsHaveDecimals(minutes);
  }

  lemma NonNegativeProduct(a: real, b: real)
    ensures a >= 0.0 && b >= 0.0 ==> a * b >= 0.0
  {
  }

  /** A value within `e` of `d`, scaled by a non-negative factor, stays within `k * e`. */
  lemma ScaledBound(d: real, x: real, e: real, k: real)
    ensures d - e <= x <= d + e && k >= 0.0 ==> d * k - k * e <= x * k <= d * k + k * e
  {
    if d - e <= x <= d + e && k >= 0.0 {
      assert (x - (d - e)) * k >= 0.0;
      assert (d + e - x) * k >= 0.0;
    }
  }

  /** The scaled integers of two equally good roundings coincide. */
  lemma NearIntegersEqual(a: int, b: int, y: real)
    requires (a as real - 0.5 <= y < a as real + 0.5 && b as real - 0.5 <= y < b as real + 0.5)
          || (a as real - 0.5 < y <= a as real + 0.5 && b as real - 0.5 < y <= b as real + 0.5)
    ensures a == b
  {
  }

  /** An amount that already has the decimals of `scale` is left as it is. */
  lemma RoundHalfUpKeepsDecimals(x: real, scale: real)
    requires scale >= 1.0 && HasDecimals(x, scale)
    ensures RoundHalfUp(x, scale) == x
  {
    var r := RoundHalfUp(x, scale);
    var kx := (x * scale).Floor;
    var kr := (r * scale).Floor;
    Scaled(x, scale);
    Scaled(r, scale);
    HalfStep(r, scale);
    var y := x * scale;
    if x >= 0.0 {
      ScaledLe(r - 0.5 / scale, x, scale);
      ScaledLt(x, r + 0.5 / scale, scale);
      assert kr as real - 0.5 <= y < kr as real + 0.5;
    } else {
      ScaledLt(r - 0.5 / scale, x, scale);
      ScaledLe(x, r + 0.5 / scale, scale);
      assert kr as real - 0.5 < y <= kr as real + 0.5;
    }
    NearIntegersEqual(kx, kr, y);
    ScaledLe(x, r, scale);
    ScaledLe(r, x, scale);
  }

  lemma KeepsOwnDecimals(x: real, scale: real)
    requires scale >= 1.0
    ensures HasDecimals(x, scale) ==> RoundHalfUp(x, scale) == x
  {
    if HasDecimals(x, scale) {
      RoundHalfUpKeepsDecimals(x, scale);
    }
  }

  /** A whole number of hours goes through `div(60)` unchanged. */
  lemma Div60WholeHours(hours: int)
    ensures Div60((hours * 60) as real) == hours as real
  {
    assert (hours * 60) as real / 60.0 == hours as real;
    assert (hours as real) * DivisionScale == (hours * 100000000000000000000) as real;
    RoundHalfUpKeepsDecimals(hours as real, DivisionScale);
  }

  /** Sums of whole cents are whole cents: `plus` never needs rounding. */
  lemma CentsSum(a: real, b: real)
    requires IsCents(a) && IsCents(b)
    ensures IsCents(a + b)
  {
    var ka := (a * Cents).Floor;
    var kb := (b * Cents).Floor;
    assert a * Cents == ka as real && b * Cents == kb as real;
    assert (a + b) * Cents == a * Cents + b * Cents;
    assert (a + b) * Cents == (ka + kb) as real;
  }
}
