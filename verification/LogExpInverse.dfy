/**
 Exponential and logarithm undo each other: what the errors of the two come to, in the units of their
 results.
 */
module LogExpInverse {
  import opened RealErrors
  import opened NaturalExponential
  import opened ExponentialSeries
  import opened LogExpConstants
  import opened LogExpExponential
  import opened LogExpLogarithm
  import opened LogExpSeries
  import opened LogExpTable
  import opened LogExpPower
  import opened LogExpAccuracy
  import opened LogarithmAccuracy

  /** Exponentials that are close have close exponents. */
  lemma ExponentsAreClose(e: real -> real, x: real, y: real, d: real)
    requires IsExponential(e) && Within(e, e(x), e(y), d)
    ensures -d <= x - y <= d
  {
    assert AddsUp(e, y, d) && AddsUp(e, x, d);
    if x > y + d {
      Monotone(e, y + d, x);
    }
    if y > x + d {
      Monotone(e, x + d, y);
    }
  }

  // ---------------------------------------------------------------- the exponential of the logarithm

  const INVERSE_UNITS: int := 851

  lemma SmallExponential(e: real -> real)
    requires IsExponential(e)
    ensures e(BOTH_ERRORS) <= 1.0 + INVERSE_UNITS as real * DELTA
  {
    var d := BOTH_ERRORS;
    BelowInverse(e, d);
    assert Times(1.0 + INVERSE_UNITS as real * DELTA, 1.0 - d) >= 1.0;
    ByWeight(e(d), 1.0 + INVERSE_UNITS as real * DELTA, 1.0 - d);
  }

  lemma NaturalIs(e: real -> real, a: nat, l: int, d: real)
    requires IsExponential(e) && Within(e, Decimal(a, ONE_18), e(Decimal(l, ONE_18)), d)
    ensures Within(e, a as real, Natural(e, l), d)
  {
    WithinScaled(e, ONE_18 as real, Decimal(a, ONE_18), e(Decimal(l, ONE_18)), d);
    assert Times(ONE_18 as real, Decimal(a, ONE_18)) == a as real;
  }

  /** A relative bound in reals as one in units. */
  lemma InUnits(u: int, v: int, f: real)
    requires v >= 0 && u as real <= Times(v as real, f) && f <= 1.0 + INVERSE_UNITS as real * DELTA
    ensures u * ONE_20 <= v * (ONE_20 + INVERSE_UNITS)
  {
    Larger(v as real, f, 1.0 + INVERSE_UNITS as real * DELTA);
    assert Times(v as real, 1.0 + INVERSE_UNITS as real * DELTA) * UNIT == (v * (ONE_20 + INVERSE_UNITS)) as real;
  }

  /** What both roundings together may come to. */
  const BOTH_ERRORS: real := 850.0 * DELTA

  lemma BothErrors(e: real -> real, a: real, v: real, u: real)
    requires IsExponential(e) && v <= Times(u, e(EXP_ERROR)) && u <= Times(v + 1.0, e(EXP_ERROR)) && Within(e, a, u, LN_ERROR)
    ensures v <= Times(a, e(BOTH_ERRORS)) && a <= Times(v + 1.0, e(BOTH_ERRORS))
  {
    assert EXP_ERROR + LN_ERROR == BOTH_ERRORS && LN_ERROR + EXP_ERROR == BOTH_ERRORS;
    WithinHalf(e, v, u, a, EXP_ERROR, LN_ERROR);
    WithinHalf(e, a, u, v + 1.0, LN_ERROR, EXP_ERROR);
  }

  /** l is the logarithm of a, to the error of the rounded one. */
  ghost predicate IsLn(e: real -> real, a: nat, l: int) {
    Within(e, Decimal(a, ONE_18), e(Decimal(l, ONE_18)), LN_ERROR)
  }

  lemma ExpOfLn(e: real -> real, a: nat, l: int, v: int)
    requires IsExponential(e) && IsLn(e, a, l)
    requires MIN_NATURAL_EXPONENT <= l <= MAX_NATURAL_EXPONENT && IsExp(l, v)
    ensures v * ONE_20 <= a * (ONE_20 + INVERSE_UNITS)
    ensures a * ONE_20 <= (v + 1) * (ONE_20 + INVERSE_UNITS)
  {
    NaturalIs(e, a, l, LN_ERROR);
    ExpAccuracy(e, l, v);
    BothErrors(e, a as real, v as real, Natural(e, l));
    SmallExponential(e);
    InUnits(v, a, e(BOTH_ERRORS));
    InUnits(a, v + 1, e(BOTH_ERRORS));
  }

  /**
   The exponential of the logarithm of a number is that number, to less than nine units in the eighteenth
   digit, rounded down.
   */
  lemma ExpOfLnTheorem(e: real -> real, a: nat, v: int)
    requires IsExponential(e) && 0 < a <= MAX_INT
    requires MIN_NATURAL_EXPONENT <= LnValue(a) <= MAX_NATURAL_EXPONENT && IsExp(LnValue(a), v)
    ensures v * ONE_20 <= a * (ONE_20 + INVERSE_UNITS)
    ensures a * ONE_20 <= (v + 1) * (ONE_20 + INVERSE_UNITS)
  {
    LnAccuracy(e, a);
    ExpOfLn(e, a, LnValue(a), v);
  }

  // ---------------------------------------------------------------- the logarithm of the exponential

  lemma LargestExponential(e: real -> real)
    requires IsExponential(e)
    ensures Times(ONE_18 as real, e(130.0)) * 2.0 <= MAX_INT as real
  {
    Exponentials(e, 0);
    Exponentials(e, 6);
    assert Exponent(0) == 128.0 && Exponent(6) == 2.0;
    assert AddsUp(e, 128.0, 2.0) && 128.0 + 2.0 == 130.0;
    var u, v := e(128.0), e(2.0);
    Positive(e, 2.0);
    assert u <= 40000000000000000000000000000000000000000000000000000000.0 && v <= 8.0;
    TimesMono(u, 40000000000000000000000000000000000000000000000000000000.0, v);
    assert Times(u, v) <= 320000000000000000000000000000000000000000000000000000000.0;
  }

  lemma ExpWithinRange(e: real -> real, x: int, r: int)
    requires IsExponential(e) && MIN_NATURAL_EXPONENT <= x <= MAX_NATURAL_EXPONENT && IsExp(x, r)
    ensures r <= MAX_INT
  {
    ExpAccuracy(e, x, r);
    LargestExponential(e);
    var y := x as real / ONE_18 as real;
    assert y <= 130.0;
    Monotone(e, y, 130.0);
    Larger(ONE_18 as real, e(y), e(130.0));
    BelowInverse(e, EXP_ERROR);
    ByWeight(e(EXP_ERROR), 2.0, 1.0 - EXP_ERROR);
    NaturalPositive(e, x);
    Larger(Natural(e, x), e(EXP_ERROR), 2.0);
  }

  /** r and r + 1 are within one r-th of each other. */
  lemma NextUnit(e: real -> real, r: int)
    requires IsExponential(e) && r > 0
    ensures (r + 1) as real <= Times(r as real, e(1.0 / r as real))
  {
    var s := 1.0 / r as real;
    assert s * r as real == 1.0;
    assert AboveTangent(e, s);
    Larger(r as real, 1.0 + s, e(s));
    assert Times(r as real, 1.0 + s) == r as real + 1.0;
  }

  /** The two exponents, as exact numbers. */
  lemma ExponentsAgree(e: real -> real, y: real, z: real, r: nat)
    requires IsExponential(e) && r > 0 && RoundsDown(e, r, Times(ONE_18 as real, e(y)), EXP_ERROR)
    requires Within(e, r as real, Times(ONE_18 as real, e(z)), LN_ERROR)
    ensures z <= y + BOTH_ERRORS && y <= z + BOTH_ERRORS + 1.0 / r as real
  {
    var rr, u, v := r as real, Times(ONE_18 as real, e(y)), Times(ONE_18 as real, e(z));
    NextUnit(e, r);
    UpperExponent(e, rr, u, v, y, z, BOTH_ERRORS);
    LowerExponent(e, rr, u, v, y, z, BOTH_ERRORS, 1.0 / rr);
  }

  lemma ExponentUnits(x: int, l: int, r: nat)
    requires r > 0
    requires var y, z := Decimal(x, ONE_18), Decimal(l, ONE_18);
             z <= y + BOTH_ERRORS && y <= z + BOTH_ERRORS + 1.0 / r as real
    ensures l - x <= 8 && (x - l - 9) as real <= ONE_18 as real * (1.0 / r as real)
  {
  }

  lemma UnitsBetween(x: int, l: int, r: nat)
    requires r > 0 && (x - l - 9) as real <= ONE_18 as real * (1.0 / r as real)
    ensures (x - l - 9) * r <= ONE_18
  {
    var k, s := x - l - 9, 1.0 / r as real;
    assert s * r as real == 1.0;
    LowerUnits(k, r, s);
  }

  /**
   The logarithm of an exponential gives its argument back: at most eight units above it, and below it by
   at most nine units and what one unit of the exponential itself is worth.
   */
  lemma LnOfExpTheorem(e: real -> real, x: int, r: nat)
    requires IsExponential(e) && MIN_NATURAL_EXPONENT <= x <= MAX_NATURAL_EXPONENT && IsExp(x, r) && r > 0
    ensures LnValue(r) - x <= 8
    ensures (x - LnValue(r) - 9) * r <= ONE_18
  {
    var l := LnValue(r);
    ExpWithinRange(e, x, r);
    LnAccuracy(e, r);
    NaturalIs(e, r, l, LN_ERROR);
    ExpAccuracy(e, x, r);
    ExponentsAgree(e, Decimal(x, ONE_18), Decimal(l, ONE_18), r);
    ExponentUnits(x, l, r);
    UnitsBetween(x, l, r);
  }

  lemma UpperExponent(e: real -> real, r: real, u: real, v: real, y: real, z: real, d: real)
    requires IsExponential(e) && u == Times(ONE_18 as real, e(y)) && v == Times(ONE_18 as real, e(z))
    requires d == BOTH_ERRORS && r <= Times(u, e(EXP_ERROR)) && v <= Times(r, e(LN_ERROR))
    ensures z <= y + d
  {
    WithinHalf(e, v, r, u, LN_ERROR, EXP_ERROR);
    assert LN_ERROR + EXP_ERROR == d;
    ExponentAtMost(e, y, z, d);
  }

  lemma LowerExponent(e: real -> real, r: real, u: real, v: real, y: real, z: real, d: real, s: real)
    requires IsExponential(e) && u == Times(ONE_18 as real, e(y)) && v == Times(ONE_18 as real, e(z))
    requires d == BOTH_ERRORS && u <= Times(r + 1.0, e(EXP_ERROR)) && r <= Times(v, e(LN_ERROR)) && r + 1.0 <= Times(r, e(s))
    ensures y <= z + d + s
  {
    WithinHalf(e, u, r + 1.0, r, EXP_ERROR, s);
    WithinHalf(e, u, r, v, EXP_ERROR + s, LN_ERROR);
    assert EXP_ERROR + s + LN_ERROR == d + s;
    ExponentAtMost(e, z, y, d + s);
    assert z + (d + s) == z + d + s;
  }

  lemma ExponentAtMost(e: real -> real, y: real, z: real, d: real)
    requires IsExponential(e) && Times(ONE_18 as real, e(z)) <= Times(Times(ONE_18 as real, e(y)), e(d))
    ensures z <= y + d
  {
    assert AddsUp(e, y, d);
    assert Times(Times(ONE_18 as real, e(y)), e(d)) == Times(ONE_18 as real, e(y + d)) by {
      NaturalExponential.Regrouped(ONE_18 as real, e(y), e(d));
    }
    TimesSymmetric(ONE_18 as real, e(z));
    TimesSymmetric(ONE_18 as real, e(y + d));
    ByWeight(e(z), e(y + d), ONE_18 as real);
    if z > y + d {
      Monotone(e, y + d, z);
    }
  }

  lemma LowerUnits(k: int, r: int, s: real)
    requires r > 0 && s * r as real == 1.0 && k as real <= ONE_18 as real * s
    ensures k * r <= ONE_18
  {
    TimesMono(k as real, ONE_18 as real * s, r as real);
    assert ONE_18 as real * s * r as real == ONE_18 as real;
    assert (k * r) as real == k as real * r as real;
  }
}
