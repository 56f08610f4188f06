/**
 * The pagination helpers over `System.Decimal`.  A decimal is an exact
 * base-10 number of magnitude at most 2^96 - 1, modelled as a `real` in that
 * range; the conversion to `int` is the checked one, which throws
 * `OverflowException` outside the 32-bit range.
 */
module DecimalHelper {
  import opened Wrappers

  /** `decimal.MaxValue`, 2^96 - 1. */
  const MaxDecimal: real := 79228162514264337593543950335.0

  /** A value of type `decimal`. */
  type Decimal = v: real | -MaxDecimal <= v <= MaxDecimal

  /** The bounds of a 32-bit `int`. */
  const IntMin: int := -0x8000_0000
  const IntMax: int := 0x7FFF_FFFF

  /** A number without a fractional part. */
  predicate IsInteger(v: real) {
    v == v.Floor as real
  }

  /**
   * `Math.Round(decimal)`: the nearest integer, a value halfway between two
   * integers going to the even one.
   */
  function Round(v: real): (r: int)
    ensures v - 0.5 <= r as real <= v + 0.5
    ensures IsInteger(v) ==> r as real == v
    ensures v - v.Floor as real == 0.5 ==> r % 2 == 0
  {
    var f := v.Floor;
    var fraction := v - f as real;
    if fraction < 0.5 then f
    else if fraction > 0.5 then f + 1
    else if f % 2 == 0 then f
    else f + 1
  }

  /** `Math.Truncate`: the integer part, dropping the fraction toward zero. */
  function Truncate(v: real): (t: int)
    ensures 0.0 <= v ==> t as real <= v < t as real + 1.0
    ensures v <= 0.0 ==> t as real - 1.0 < v <= t as real
  {
    if v >= 0.0 then v.Floor else -((-v).Floor)
  }

  /** Whether the value has a fractional part: it differs from its rounding. */
  function HasDecimal(value: Decimal): (b: bool)
    ensures b <==> !IsInteger(value)
  {
    value - Round(value) as real != 0.0
  }

  /**
   * The integer part of the value as a 32-bit `int`: the value truncated
   * toward zero, or `OverflowException` when that does not fit, that is when
   * the value is not strictly between -2^31 - 1 and 2^31.
   */
  function GetIntPart(value: Decimal): (r: Result<int, Exception>)
    ensures r.Success? <==> (IntMin - 1) as real < value < (IntMax + 1) as real
    ensures r.Failure? ==> r.error == OverflowException
    ensures r.Success? && 0.0 <= value ==> r.value as real <= value < r.value as real + 1.0
    ensures r.Success? && value <= 0.0 ==> r.value as real - 1.0 < value <= r.value as real
  {
    var t := Truncate(value);
    if IntMin <= t <= IntMax then Success(t) else Failure(OverflowException)
  }

  /**
   * The number of pages for `value` items per page unit: the value itself
   * when it is whole, otherwise the integer part of the value plus one.
   * Adding one to the largest decimals overflows, as does a result outside
   * the 32-bit range.
   */
  function CalculateNumberPage(value: Decimal): (r: Result<int, Exception>)
    ensures r.Failure? ==> r.error == OverflowException
    ensures IsInteger(value) ==> r == GetIntPart(value)
  {
    if value - Round(value) as real != 0.0 then
      if value + 1.0 > MaxDecimal then Failure(OverflowException)
      else GetIntPart(value + 1.0)
    else
      GetIntPart(value)
  }

  /** A whole value is its own page count, when it fits in an `int`. */
  lemma WholeValuePages(value: Decimal)
    requires IsInteger(value) && CalculateNumberPage(value).Success?
    ensures CalculateNumberPage(value).value as real == value
  {
    var k := value.Floor;
    var r := GetIntPart(value).value;
    assert value == k as real;
    if value >= 0.0 {
      assert r <= k < r + 1;
    } else {
      assert r - 1 < k <= r;
    }
  }

  /**
   * For every value above -1 the page count is the ceiling of the value,
   * and it is defined exactly when that ceiling fits in an `int`.
   */
  lemma NumberPageIsCeiling(value: Decimal)
    requires -1.0 < value
    ensures CalculateNumberPage(value).Success? <==> value <= IntMax as real
    ensures CalculateNumberPage(value).Success? ==>
      var pages := CalculateNumberPage(value).value;
      value <= pages as real < value + 1.0
  {
  }

  /** The page count is the integer part of the value, or one more. */
  lemma NumberPageAfterIntPart(value: Decimal)
    requires CalculateNumberPage(value).Success? && GetIntPart(value).Success?
    ensures GetIntPart(value).value <= CalculateNumberPage(value).value <= GetIntPart(value).value + 1
  {
    if HasDecimal(value) {
      assert value + 1.0 <= MaxDecimal;
    }
  }
}
