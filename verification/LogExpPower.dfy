/** Balancer V2's power: the exponential of the scaled natural logarithm. */
module LogExpPower {
  import opened Wrappers
  import opened Truncating
  import opened LogExpConstants
  import opened LogExpExponential
  import opened LogExpLogarithm

  /** v is the exponential of x: rounded down for x >= 0, the rounded inverse of one for x < 0. */
  ghost predicate IsExp(x: int, v: int) {
    if x >= 0 then v >= ONE_18 + x && ApproximatesExp(x, v)
    else 0 <= v <= ONE_18 && exists e :: ApproximatesExp(-x, e) && e >= ONE_18 - x && v == Quot(ONE_36, e)
  }

  /** The exponential of any admitted argument; of a negative one it is the inverse, rounded down. */
  method Exp(x: int) returns (r: Result<int, LogExpError>)
    ensures r.Failure? <==> !(MIN_NATURAL_EXPONENT <= x <= MAX_NATURAL_EXPONENT)
    ensures r.Failure? ==> r.error == InvalidExponent
    ensures r.Success? ==> IsExp(x, r.value)
    ensures x == 0 ==> r == Success(ONE_18)
    decreases x < 0
  {
    if !(x >= MIN_NATURAL_EXPONENT && x <= MAX_NATURAL_EXPONENT) {
      return Failure(InvalidExponent);
    }
    if x < 0 {
      var e := Exp(-1 * x);
      InverseAtMostOne(e.value);
      return Success(Quot(ONE_18 * ONE_18, e.value));
    }
    var v := ExpNonNegative(x);
    r := Success(v);
  }

  lemma InverseAtMostOne(e: int)
    requires e >= ONE_18
    ensures 0 <= Quot(ONE_36, e) <= ONE_18
  {
    NatQuotient(ONE_36, e);
    MulMono(ONE_18, e, ONE_18);
    FloorBelow(ONE_36, e, ONE_18 + 1);
  }

  // ---------------------------------------------------------------- the power

  lemma ProductSign(l: int, y: nat)
    ensures l >= 0 ==> l * y >= 0
    ensures l <= 0 ==> l * y <= 0
  {
  }

  lemma ScaledSign(l: int)
    ensures l >= 0 ==> Quot(l, ONE_18) >= 0
    ensures l <= 0 ==> Quot(l, ONE_18) <= 0
  {
    QuotSign(l, ONE_18);
  }

  lemma SplitSign(l: int, y: nat)
    ensures var p := Quot(l, ONE_18) * y + Quot(Rem(l, ONE_18) * y, ONE_18);
            (l >= 0 ==> p >= 0) && (l <= 0 ==> p <= 0)
  {
    ScaledSign(l);
    FloorBracket(if l >= 0 then l else -l, ONE_18);
    assert (l >= 0 ==> Rem(l, ONE_18) >= 0) && (l <= 0 ==> Rem(l, ONE_18) <= 0);
    ProductSign(Quot(l, ONE_18), y);
    ProductSign(Rem(l, ONE_18), y);
    ScaledSign(Rem(l, ONE_18) * y);
  }

  /** The exponent y * ln(x) that pow hands to the exponential, from one of the two logarithms. */
  function PowArgument(x: nat, y: nat): int
    requires x > 0
  {
    var ln36 := SeriesLn(x * ONE_18, ONE_36, 7);
    var product := if LN_36_LOWER_BOUND < x < LN_36_UPPER_BOUND
                   then Quot(ln36, ONE_18) * y + Quot(Rem(ln36, ONE_18) * y, ONE_18)
                   else LnValue(x) * y;
    Quot(product, ONE_18)
  }

  /** x to the power of y: on the same side of one as x, whenever it does not throw. */
  method Pow(x: nat, y: nat) returns (r: Result<int, LogExpError>)
    ensures y == 0 ==> r == Success(ONE_18)
    ensures y > 0 && x == 0 ==> r == Success(0)
    ensures y > 0 && x > MAX_INT ==> r == Failure(XOutOfBounds)
    ensures y >= MILD_EXPONENT_BOUND && 0 < x <= MAX_INT ==> r == Failure(YOutOfBounds)
    ensures r.Success? && x >= ONE_18 ==> r.value >= ONE_18
    ensures r.Success? && x <= ONE_18 && y > 0 ==> 0 <= r.value <= ONE_18
    ensures x == ONE_18 && y < MILD_EXPONENT_BOUND ==> r == Success(ONE_18)
    ensures 0 < x <= MAX_INT && 0 < y < MILD_EXPONENT_BOUND ==>
              if MIN_NATURAL_EXPONENT <= PowArgument(x, y) <= MAX_NATURAL_EXPONENT
              then r.Success? && IsExp(PowArgument(x, y), r.value)
              else r == Failure(ProductOutOfBounds)
  {
    if y == 0 {
      return Success(ONE_18);
    }
    if x == 0 {
      return Success(0);
    }
    if !(x <= MAX_INT) {
      return Failure(XOutOfBounds);
    }
    if !(y < MILD_EXPONENT_BOUND) {
      return Failure(YOutOfBounds);
    }
    var logxTimesY;
    if LN_36_LOWER_BOUND < x && x < LN_36_UPPER_BOUND {
      var ln36 := Ln36(x);
      logxTimesY := Quot(ln36, ONE_18) * y + Quot(Rem(ln36, ONE_18) * y, ONE_18);
      SplitSign(ln36, y);
    } else {
      var ln := Ln(x);
      logxTimesY := ln * y;
      ProductSign(ln, y);
    }
    ScaledSign(logxTimesY);
    logxTimesY := Quot(logxTimesY, ONE_18);
    if !(MIN_NATURAL_EXPONENT <= logxTimesY && logxTimesY <= MAX_NATURAL_EXPONENT) {
      return Failure(ProductOutOfBounds);
    }
    r := Exp(logxTimesY);
  }
}
