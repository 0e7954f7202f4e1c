/** The rounding helpers of Chummer/Backend/Static/Extensions/DecimalExtensions.cs, with .NET
    `decimal` values modelled as reals. */
module DecimalExtensions {
  import opened Common

  /** `decimal.ToInt32` either yields an `int` or throws OverflowException. */
  datatype Conversion = Converted(value: Int32) | Overflow

  /** `decimal.Floor`: the greatest integer at or below x. */
  function Floor(x: real): (r: int)
    ensures r as real <= x && x - (r as real) < 1.0
  {
    x.Floor
  }

  /** `decimal.Ceiling`: the least integer at or above x. */
  function Ceiling(x: real): (r: int)
    ensures r as real >= x && (r as real) - x < 1.0
  {
    -((-x).Floor)
  }

  /** `decimal.ToInt32`: truncation toward zero, then a range check. */
  function ToInt32(x: real): (r: Conversion)
    ensures r.Converted? <==> InInt32Range(if x >= 0.0 then x.Floor else Ceiling(x))
    ensures r.Converted? ==> (r.value as real) <= x || x < 0.0
    ensures r.Converted? && x >= 0.0 ==> 0 <= r.value && x - (r.value as real) < 1.0 && (r.value as real) <= x
    ensures r.Converted? && x < 0.0 ==> r.value <= 0 && (r.value as real) - x < 1.0 && x <= (r.value as real)
  {
    var t := if x >= 0.0 then x.Floor else Ceiling(x);
    if InInt32Range(t) then Converted(t) else Overflow
  }

  /** The away-from-zero rounding value before the range check. */
  function RoundAwayFromZero(x: real): (r: int)
    ensures x >= 0.0 ==> r as real >= x && (r as real) - x < 1.0
    ensures x < 0.0 ==> r as real <= x && x - (r as real) < 1.0
  {
    if x >= 0.0 then Ceiling(x) else Floor(x)
  }

  /** An integral value is its own floor. */
  lemma IntegralFloor(n: int)
    ensures (n as real).Floor == n && Ceiling(n as real) == n
  {
    assert (-(n as real)) == (-n) as real;
  }

  /** `StandardRound`: ceiling for non-negative inputs, floor for negative ones, then `ToInt32`. */
  function StandardRound(x: real): (r: Conversion)
    ensures r.Converted? <==> InInt32Range(RoundAwayFromZero(x))
    ensures r.Converted? && x >= 0.0 ==> r.value as real >= x && (r.value as real) - x < 1.0
    ensures r.Converted? && x < 0.0 ==> r.value as real <= x && x - (r.value as real) < 1.0
  {
    var n := RoundAwayFromZero(x);
    IntegralFloor(n);
    ToInt32(n as real)
  }

  /** The result moves away from zero by less than one. */
  lemma StandardRoundAwayFromZero(x: real)
    requires StandardRound(x).Converted?
    ensures var r := StandardRound(x).value as real;
      (if r < 0.0 then -r else r) >= (if x < 0.0 then -x else x) &&
      (if r - x < 0.0 then x - r else r - x) < 1.0
  {
  }

  /** An integral input comes back unchanged. */
  lemma StandardRoundIntegral(n: Int32)
    ensures StandardRound(n as real) == Converted(n)
  {
    IntegralFloor(n);
  }

  /** Rounding commutes with negation, as long as both results are in range. */
  lemma StandardRoundOdd(x: real)
    requires StandardRound(x).Converted? && StandardRound(-x).Converted?
    ensures StandardRound(-x).value == -StandardRound(x).value
  {
    if x == 0.0 {
    } else if x > 0.0 {
      assert RoundAwayFromZero(-x) == Floor(-x);
    } else {
      assert RoundAwayFromZero(-x) == Ceiling(-x);
      assert Floor(x) == -Ceiling(-x);
    }
  }

  /** `ToInt32` drops the fractional part toward zero: 2.7 becomes 2 and -2.7 becomes -2. */
  lemma ToInt32TruncatesTowardZero()
    ensures ToInt32(2.7) == Converted(2)
    ensures ToInt32(-2.7) == Converted(-2)
    ensures StandardRound(2.1) == Converted(3)
    ensures StandardRound(-2.1) == Converted(-3)
  {
    assert (2.7).Floor == 2;
    assert (-(-2.7)).Floor == 2;
    assert (-2.1).Floor == -3;
    assert (2.1).Floor == 2;
    assert (-(2.1)).Floor == -3;
  }

  /** Values whose rounding leaves the `int` range overflow, e.g. 2147483647.5 rounds up past it. */
  lemma StandardRoundOverflows()
    ensures StandardRound(2147483647.5) == Overflow
    ensures ToInt32(2147483647.5) == Converted(IntMaxValue)
  {
    assert (2147483647.5).Floor == 2147483647;
    assert (-2147483647.5).Floor == -2147483648;
  }
}
