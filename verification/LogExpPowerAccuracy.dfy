/**
 The power: rounded as it is, it is the natural power to less than the relative error the fixed-point
 library allows for, so that rounding it up by that error never falls below the exact value.
 */
module LogExpPowerAccuracy {
  import opened Wrappers
  import opened Truncating
  import opened RealErrors
  import opened NaturalExponential
  import opened ExponentialSeries
  import opened LogExpConstants
  import opened LogExpExponential
  import opened LogExpLogarithm
  import opened LogExpSeries
  import opened LogExpTable
  import opened LogExpPower
  import opened LogExpAccuracy
  import opened LogarithmAccuracy
  import opened LogExpInverse

  // ---------------------------------------------------------------- the logarithm near one

  /** Of the series near one only a small share is missing. */
  lemma TailShare(z: real)
    requires 0.0 <= z <= 0.0625
    ensures LogTop(z, 7) <= LogSum(z, 7) + Times(DELTA, LogSum(z, 7)) && LogSum(z, 7) >= 2.0 * z
  {
    FirstTermOf(z, 7);
    SeventeenthPower(z, 8);
    var p := OddPower(z, 8);
    assert 4.0 * (p / 17.0) <= 2.0 * Times(DELTA, z);
    TimesMono(2.0 * z, LogSum(z, 7), DELTA);
    TimesSymmetric(DELTA, LogSum(z, 7));
    TimesSymmetric(DELTA, 2.0 * z);
    assert Times(DELTA, 2.0 * z) == 2.0 * Times(DELTA, z);
  }

  lemma {:induction false} FirstTermOf(z: real, k: nat)
    requires z >= 0.0
    ensures OddSum(z, k) >= z
  {
    if k > 0 {
      FirstTermOf(z, k - 1);
      PowersOf(z, k);
      assert OddPower(z, k) / (2 * k + 1) as real >= 0.0;
    }
  }

  /** z to the seventeenth is a small share of z. */
  lemma SeventeenthPower(z: real, k: nat)
    requires 0.0 <= z <= 0.0625 && k == 8
    ensures 0.0 <= OddPower(z, k) && 4.0 * OddPower(z, k) <= Times(DELTA * 34.0, z)
  {
    PowersOf(z, k);
    EvenPowerAtMost(z, 0.0625, k);
    SmallEvenPower();
    TimesMono(EvenPower(z, k), EvenBound(0.0625, k), z);
    TimesSymmetric(z, EvenPower(z, k));
    TimesMono(4.0 * EvenBound(0.0625, k), DELTA * 34.0, z);
  }

  ghost function EvenBound(y: real, k: nat): real {
    if k == 0 then 1.0 else EvenBound(y, k - 1) * (y * y)
  }

  lemma {:induction false} EvenPowerAtMost(z: real, y: real, k: nat)
    requires 0.0 <= z <= y
    ensures 0.0 <= EvenPower(z, k) <= EvenBound(y, k)
  {
    if k > 0 {
      EvenPowerAtMost(z, y, k - 1);
      TimesMono(z, y, z);
      TimesMono(z, y, y);
      TimesMono(0.0, z, z);
      TimesMono(z * z, y * y, EvenBound(y, k - 1));
      TimesMono(EvenPower(z, k - 1), EvenBound(y, k - 1), z * z);
      TimesMono(0.0, EvenPower(z, k - 1), z * z);
      TimesSymmetric(EvenBound(y, k - 1), z * z);
      TimesSymmetric(EvenBound(y, k - 1), y * y);
    }
  }

  lemma SmallEvenPower()
    ensures 4.0 * EvenBound(0.0625, 8) <= DELTA * 34.0
  {
    assert EvenBound(0.0625, 2) == 0.0000152587890625;
    assert EvenBound(0.0625, 4) == 0.0000152587890625 / 65536.0;
    assert EvenBound(0.0625, 6) == 0.0000152587890625 / 65536.0 / 65536.0;
    assert EvenBound(0.0625, 8) == 0.0000152587890625 / 65536.0 / 65536.0 / 65536.0;
  }

  /** The roundings of the seven further terms, in 36 decimals. */
  const SERIES_UNITS: real := 44.0 / ONE_36 as real

  /** w is the exact logarithm of a number a little off one, and s the computed one, both without their sign. */
  ghost predicate CloseLogs(s: real, w: real) {
    s <= w && w <= s + SERIES_UNITS + Times(DELTA, s + SERIES_UNITS)
  }

  lemma LogsOfRatio(e: real -> real, z: real, s: real, w: real)
    requires IsExponential(e) && 0.0 <= z <= 0.0625 && e(w) == FromRatio(z)
    requires LogSum(z, 7) - SERIES_UNITS <= s <= LogSum(z, 7)
    ensures CloseLogs(s, w) && s >= 2.0 * z - SERIES_UNITS
  {
    var l, t := LogSum(z, 7), LogTop(z, 7);
    LogarithmTheorem(e, z, 7);
    TailShare(z);
    if w < l {
      Monotone(e, w, l);
    }
    if t < w {
      Monotone(e, t, w);
    }
    TimesMono(l, s + SERIES_UNITS, DELTA);
    TimesSymmetric(DELTA, l);
    TimesSymmetric(DELTA, s + SERIES_UNITS);
  }

  lemma RatioAtLeast(a: nat, one: nat, y: real)
    requires one > 0 && Times(y, (a + one) as real) <= (a - one) as real
    ensures y <= Ratio(a, one)
  {
    Quotient((a - one) as real, (a + one) as real);
    ByWeight(y, Ratio(a, one), (a + one) as real);
  }

  /** The least a logarithm other than zero can be near one. */
  const SMALLEST_LOG: real := 9.0 / (10 * ONE_18) as real

  /** Without its sign. */
  ghost function Size(x: real): real {
    if x >= 0.0 then x else -x
  }

  lemma LogsAbove(e: real -> real, a: nat, w: real)
    requires IsExponential(e) && ONE_36 + ONE_18 <= a < LN_36_UPPER_BOUND * ONE_18 && e(w) == Decimal(a, ONE_36)
    ensures var s := Decimal(SeriesLn(a, ONE_36, 7), ONE_36); CloseLogs(s, w) && s >= SMALLEST_LOG
  {
    var s, z := Decimal(SeriesLn(a, ONE_36, 7), ONE_36), Ratio(a, ONE_36);
    RatioAtMost(a, ONE_36, 0.0625);
    RatioNotNegative(a, ONE_36);
    RatioAtLeast(a, ONE_36, 0.47 / ONE_18 as real);
    FromRatioIs(a, ONE_36);
    SeriesTheorem(a, ONE_36, 7);
    ShortDecimal(SeriesLn(a, ONE_36, 7), LogSum(z, 7), 44, ONE_36);
    LogsOfRatio(e, z, s, w);
  }

  lemma LogsBelow(e: real -> real, a: nat, w: real)
    requires IsExponential(e) && LN_36_LOWER_BOUND * ONE_18 < a <= ONE_36 - ONE_18 && e(w) == Decimal(a, ONE_36)
    ensures var s := Decimal(SeriesLn(a, ONE_36, 7), ONE_36); CloseLogs(-s, -w) && -s >= SMALLEST_LOG
  {
    var l, z := SeriesLn(a, ONE_36, 7), Ratio(ONE_36, a);
    RatioAtMost(ONE_36, a, 0.0625);
    RatioNotNegative(ONE_36, a);
    RatioAtLeast(ONE_36, a, 0.47 / ONE_18 as real);
    RatioMirrored(a, ONE_36);
    OddSumOdd(z, 7);
    SeriesTheorem(a, ONE_36, 7);
    ShortDecimal(-l, LogSum(z, 7), 44, ONE_36);
    NegativeDecimal(l, ONE_36);
    InverseIs(e, a, w);
    LogsOfRatio(e, z, -Decimal(l, ONE_36), -w);
  }

  lemma InverseIs(e: real -> real, a: nat, w: real)
    requires IsExponential(e) && a > 0 && e(w) == Decimal(a, ONE_36)
    ensures Ratio(ONE_36, a) < 1.0 && e(-w) == FromRatio(Ratio(ONE_36, a))
  {
    FromRatioIs(ONE_36, a);
    InverseDecimal(a, ONE_36);
    Opposite(e, w);
    TimesSymmetric(e(w), e(-w));
    SameInverse(e(-w), Decimal(ONE_36, a), e(w));
  }

  // ---------------------------------------------------------------- the argument of the exponential

  /** p is w * y in units, to two units and an error of d a unit of y. */
  ghost predicate IsProduct(p: int, w: real, y: nat, d: real) {
    -2.0 - Times(d, y as real) <= p as real - Times(w, y as real) <= 2.0 + Times(d, y as real)
  }

  lemma QuotReal(v: int)
    ensures -1.0 <= Quot(v, ONE_18) as real - v as real / ONE_18 as real <= 1.0
  {
    FloorBracket(if v >= 0 then v else -v, ONE_18);
  }

  lemma TimesError(u: real, w: real, d: real, y: nat)
    requires -d <= u - w <= d
    ensures -Times(d, y as real) <= Times(u, y as real) - Times(w, y as real) <= Times(d, y as real)
  {
    TimesMono(u - w, d, y as real);
    TimesMono(-d, u - w, y as real);
    DifferenceOfProducts(u, w, y as real);
    SignedProduct(d, y as real);
  }

  lemma ProductOfLn(l: int, w: real, y: nat, d: real)
    requires -d <= Decimal(l, ONE_18) - w <= d
    ensures IsProduct(Quot(l * y, ONE_18), w, y, d)
  {
    QuotReal(l * y);
    TimesError(Decimal(l, ONE_18), w, d, y);
    assert (l * y) as real / ONE_18 as real == Times(Decimal(l, ONE_18), y as real) by {
      assert (l * y) as real == l as real * y as real;
    }
  }

  /** The split multiplication of pow: whole part and remainder of ln36, each times y. */
  lemma SplitProduct(l: int, y: nat)
    ensures var p := Quot(l, ONE_18) * y + Quot(Rem(l, ONE_18) * y, ONE_18);
            -1.0 <= p as real - (l * y) as real / ONE_18 as real <= 1.0
  {
    var q, m := Quot(l, ONE_18), Rem(l, ONE_18);
    QuotReal(m * y);
    assert l * y == q * y * ONE_18 + m * y by {
      assert l == q * ONE_18 + m;
    }
  }

  lemma DecimalProduct(l: int, y: nat, one: int)
    requires one > 0
    ensures (l * y) as real / one as real == Times(Decimal(l, one), y as real)
  {
    var u := one as real;
    assert (l * y) as real == Times(l as real, y as real);
    QuotientOfProduct(y as real, l as real, u);
    TimesSymmetric(l as real, y as real);
    TimesSymmetric(Decimal(l, one), y as real);
  }

  lemma TwoQuotients(a: real, p: real, q: real)
    requires -1.0 <= p - a / ONE_18 as real <= 1.0 && -1.0 <= q - p / ONE_18 as real <= 1.0
    ensures -2.0 <= q - a / ONE_36 as real <= 2.0
  {
    assert ONE_36 as real == 1000000000000000000000000000000000000.0;
    assert a / ONE_36 as real == a / ONE_18 as real / ONE_18 as real;
  }

  lemma ProductOfLn36(l: int, w: real, y: nat, d: real, p: int)
    requires -d <= Decimal(l, ONE_36) - w <= d && p == Quot(l, ONE_18) * y + Quot(Rem(l, ONE_18) * y, ONE_18)
    ensures IsProduct(Quot(p, ONE_18), w, y, d)
  {
    SplitProduct(l, y);
    QuotReal(p);
    TwoQuotients((l * y) as real, p as real, Quot(p, ONE_18) as real);
    DecimalProduct(l, y, ONE_36);
    TimesError(Decimal(l, ONE_36), w, d, y);
  }

  /** More than this the argument of an admitted power, times its exponent, cannot be. */
  const LARGEST: real := 130000000000000000002.0

  /** The argument of an admitted power is off by at most so many units. */
  const ARGUMENT_UNITS: real := 6500.0

  ghost predicate Admitted(p: int) {
    MIN_NATURAL_EXPONENT <= p <= MAX_NATURAL_EXPONENT
  }

  /** p is what pow hands to the exponential. */
  ghost predicate HandsOn(x: nat, y: nat, p: int)
    requires x > 0
  {
    p == PowArgument(x, y)
  }

  /** v is what pow returns: what it hands on is admitted, and has v for its exponential. */
  ghost predicate IsPow(x: nat, y: nat, v: int)
    requires x > 0
  {
    forall p {:trigger HandsOn(x, y, p)} :: HandsOn(x, y, p) ==> Admitted(p) && IsExp(p, v)
  }

  lemma SmallProducts(s: real, w: real, y: real)
    requires CloseLogs(s, w) && s >= SMALLEST_LOG && y >= 0.0 && Times(s, y) <= LARGEST
    ensures 0.0 <= Times(w - s, y) <= 6400.0
  {
    TimesMono(SMALLEST_LOG, s, y);
    TimesMono(0.0, w - s, y);
    TimesMono(w - s, SERIES_UNITS + Times(DELTA, s + SERIES_UNITS), y);
    assert Times(SMALLEST_LOG, y) <= LARGEST;
    assert Times(SERIES_UNITS + Times(DELTA, s + SERIES_UNITS), y) == SERIES_UNITS * y + DELTA * Times(s, y) + DELTA * SERIES_UNITS * y;
  }

  lemma NearOneProduct(p: int, s: real, w: real, y: nat)
    requires IsProduct(p, s, y, 0.0) && Admitted(p) && CloseLogs(Size(s), Size(w)) && Size(s) >= SMALLEST_LOG
    requires s >= 0.0 <==> w >= 0.0
    ensures -ARGUMENT_UNITS <= p as real - Times(w, y as real) <= ARGUMENT_UNITS
  {
    var yr := y as real;
    SignedProduct(s, yr);
    SignedProduct(w, yr);
    TimesMono(0.0, Size(s), yr);
    SmallProducts(Size(s), Size(w), yr);
    DifferenceOfProducts(Size(w), Size(s), yr);
  }

  lemma FarFromOne(e: real -> real, x: nat, w: real)
    requires IsExponential(e) && e(w) == Decimal(x, ONE_18) && (x <= LN_36_LOWER_BOUND || x >= LN_36_UPPER_BOUND)
    ensures Size(w) >= 1.0 / 11.0 && (w >= 0.0 <==> x >= LN_36_UPPER_BOUND)
  {
    assert AboveTangent(e, w);
    if x >= LN_36_UPPER_BOUND && w < 1.0 / 11.0 {
      BelowInverse(e, w);
      TimesMono(1.1, e(w), 1.0 - w);
    }
  }

  lemma FarProduct(p: int, w: real, y: nat)
    requires IsProduct(p, w, y, LN_ERROR) && Admitted(p) && Size(w) >= 1.0 / 11.0
    ensures -ARGUMENT_UNITS <= p as real - Times(w, y as real) <= ARGUMENT_UNITS
  {
    var yr := y as real;
    SignedProduct(w, yr);
    TimesMono(1.0 / 11.0, Size(w), yr);
  }

  lemma OneIsExact(e: real -> real, y: nat, w: real)
    requires IsExponential(e) && e(w) == 1.0
    ensures PowArgument(ONE_18, y) == 0 && w == 0.0
  {
    AtZero(e);
    if w < 0.0 {
      Monotone(e, w, 0.0);
    } else if w > 0.0 {
      Monotone(e, 0.0, w);
    }
    ZeroSeries(7);
  }

  lemma {:induction false} ZeroSeries(k: nat)
    ensures LogSeries(0, 0, ONE_36, k) == (0, 0)
  {
    if k > 0 {
      ZeroSeries(k - 1);
    }
  }

  lemma NearArgument(e: real -> real, x: nat, y: nat, w: real)
    requires IsExponential(e) && LN_36_LOWER_BOUND < x < LN_36_UPPER_BOUND && x != ONE_18 && e(w) == Decimal(x, ONE_18)
    ensures Admitted(PowArgument(x, y)) ==> -ARGUMENT_UNITS <= PowArgument(x, y) as real - Times(w, y as real) <= ARGUMENT_UNITS
  {
    var a: nat := x * ONE_18;
    var l := SeriesLn(a, ONE_36, 7);
    assert Decimal(a, ONE_36) == Decimal(x, ONE_18);
    if x > ONE_18 {
      LogsAbove(e, a, w);
    } else {
      LogsBelow(e, a, w);
    }
    ProductOfLn36(l, Decimal(l, ONE_36), y, 0.0, Quot(l, ONE_18) * y + Quot(Rem(l, ONE_18) * y, ONE_18));
    if Admitted(PowArgument(x, y)) {
      NearOneProduct(PowArgument(x, y), Decimal(l, ONE_36), w, y);
    }
  }

  lemma FarArgument(e: real -> real, x: nat, y: nat, w: real)
    requires IsExponential(e) && 0 < x <= MAX_INT && !(LN_36_LOWER_BOUND < x < LN_36_UPPER_BOUND) && e(w) == Decimal(x, ONE_18)
    ensures Admitted(PowArgument(x, y)) ==> -ARGUMENT_UNITS <= PowArgument(x, y) as real - Times(w, y as real) <= ARGUMENT_UNITS
  {
    var l := LnValue(x);
    LnAccuracy(e, x);
    ExponentsAreClose(e, w, Decimal(l, ONE_18), LN_ERROR);
    ProductOfLn(l, w, y, LN_ERROR);
    FarFromOne(e, x, w);
    if Admitted(PowArgument(x, y)) {
      FarProduct(PowArgument(x, y), w, y);
    }
  }

  // ---------------------------------------------------------------- the power

  /** Seven in the fifteenth digit. */
  const POW_ERROR: real := 700000.0 * DELTA

  /** The exact power, in units of the eighteenth decimal: y times the logarithm w, exponentiated. */
  ghost function ExactPow(e: real -> real, w: real, y: nat): real {
    Times(ONE_18 as real, e(Times(w, y as real) / ONE_18 as real))
  }

  lemma PowerOf(e: real -> real, p: int, t: real, v: nat)
    requires IsExponential(e) && RoundsDown(e, v, Natural(e, p), EXP_ERROR)
    requires -ARGUMENT_UNITS <= p as real - t <= ARGUMENT_UNITS
    ensures RoundsDown(e, v, Times(ONE_18 as real, e(t / ONE_18 as real)), POW_ERROR)
  {
    var s, z, d := Decimal(p, ONE_18), t / ONE_18 as real, 650000.0 * DELTA;
    WithinExponents(e, s, z, d);
    WithinScaled(e, ONE_18 as real, e(s), e(z), d);
    var u := Times(ONE_18 as real, e(z));
    WithinHalf(e, v as real, Natural(e, p), u, EXP_ERROR, d);
    WithinHalf(e, u, Natural(e, p), (v + 1) as real, d, EXP_ERROR);
    Positive(e, z);
    PositiveTimes(ONE_18 as real, e(z));
    assert d + EXP_ERROR == EXP_ERROR + d <= POW_ERROR;
    Monotone(e, d + EXP_ERROR, POW_ERROR);
    Larger(u, e(EXP_ERROR + d), e(POW_ERROR));
    Larger((v + 1) as real, e(d + EXP_ERROR), e(POW_ERROR));
  }

  /**
   x to the power of y, both with 18 decimals, is the natural power e(w * y), where w is the logarithm of x:
   rounded down to a unit, but for a relative error of seven in the fifteenth digit.
   */
  lemma PowTheorem(e: real -> real, x: nat, y: nat, w: real, v: nat)
    requires IsExponential(e) && 0 < x <= MAX_INT && e(w) == Decimal(x, ONE_18)
    requires IsPow(x, y, v)
    ensures RoundsDown(e, v, ExactPow(e, w, y), POW_ERROR)
  {
    var p := PowArgument(x, y);
    assert HandsOn(x, y, p);
    if x == ONE_18 {
      OneIsExact(e, y, w);
    } else if LN_36_LOWER_BOUND < x < LN_36_UPPER_BOUND {
      NearArgument(e, x, y, w);
    } else {
      FarArgument(e, x, y, w);
    }
    ExpAccuracy(e, p, v);
    PowerOf(e, p, Times(w, y as real), v);
  }

  // ---------------------------------------------------------------- rounding up

  /** The relative error the fixed-point library allows a power: ten thousand units, one in the fourteenth digit. */
  const MAX_POW_RELATIVE_ERROR: nat := 10_000

  /** A product of numbers with 18 decimals, rounded up. */
  function MulUpFixed(a: int, b: int): int {
    if a * b == 0 then 0 else Quot(a * b - 1, ONE_18) + 1
  }

  /** The power and its largest error on top. */
  method PowUpFixed(x: nat, y: nat) returns (r: Result<int, LogExpError>)
    ensures y > 0 && 0 < x <= MAX_INT ==>
              if y < MILD_EXPONENT_BOUND && Admitted(PowArgument(x, y))
              then r.Success? && exists v: nat :: IsPow(x, y, v) && r.value == v + MulUpFixed(v, 10_000) + 1
              else r.Failure?
    ensures y == 0 ==> r == Success(ONE_18 + 10_000 + 1)
    ensures y > 0 && x == 0 ==> r == Success(1)
    ensures y > 0 && x > MAX_INT ==> r == Failure(XOutOfBounds)
  {
    var raw := Pow(x, y);
    if raw.Failure? {
      return raw;
    }
    var maxError := MulUpFixed(raw.value, MAX_POW_RELATIVE_ERROR) + 1;
    r := Success(raw.value + maxError);
  }

  lemma ErrorRoundedUp(v: nat)
    ensures v * 10_000 <= MulUpFixed(v, 10_000) * ONE_18 < v * 10_000 + ONE_18
    ensures v > 0 ==> MulUpFixed(v, 10_000) >= 1
  {
    if v > 0 {
      FloorBracket(v * 10_000 - 1, ONE_18);
      FloorAtLeast(v * 10_000 - 1, ONE_18, 0);
    }
  }

  lemma PowErrorIsSmall(e: real -> real)
    requires IsExponential(e)
    ensures 1.0 <= e(POW_ERROR) <= 1.0 + 800000.0 * DELTA
  {
    BelowInverse(e, POW_ERROR);
    assert Times(1.0 + 800000.0 * DELTA, 1.0 - POW_ERROR) >= 1.0;
    ByWeight(e(POW_ERROR), 1.0 + 800000.0 * DELTA, 1.0 - POW_ERROR);
    AtZero(e);
    Monotone(e, 0.0, POW_ERROR);
  }

  lemma UpByError(v: nat, u: real, f: real, r: int)
    requires v > 0 && 1.0 <= f <= 1.0 + 800000.0 * DELTA && v as real <= Times(u, f) && u <= Times((v + 1) as real, f)
    requires r == v + MulUpFixed(v, 10_000) + 1
    ensures u <= r as real && r as real <= Times(u, 1.0 + 2000000.0 * DELTA) + 3.0
  {
    ErrorRoundedUp(v);
    var m, vr := MulUpFixed(v, 10_000), v as real;
    Larger((v + 1) as real, f, 1.0 + 800000.0 * DELTA);
    assert Times((v + 1) as real, 1.0 + 800000.0 * DELTA) == vr + 1.0 + 800000.0 * DELTA * (vr + 1.0);
    assert m as real >= vr * 1000000.0 * DELTA && m as real < vr * 1000000.0 * DELTA + 1.0;
    if u < 0.0 {
      TimesMono(1.0, f, -u);
      SignedProduct(u, f);
      TimesSymmetric(-u, f);
    }
    Larger(u, f, 1.0 + 800000.0 * DELTA);
    assert Times(u, 1.0 + 800000.0 * DELTA) == u + 800000.0 * DELTA * u;
    assert Times(u, 1.0 + 2000000.0 * DELTA) == u + 2000000.0 * DELTA * u;
  }

  /**
   Rounding up is what it says: the result is never below the exact power, and above it by at most two in the
   fourteenth digit and three units.
   */
  lemma PowUpTheorem(e: real -> real, x: nat, y: nat, w: real, v: nat, r: int)
    requires IsExponential(e) && 0 < x <= MAX_INT && e(w) == Decimal(x, ONE_18)
    requires IsPow(x, y, v) && r == v + MulUpFixed(v, 10_000) + 1
    ensures ExactPow(e, w, y) <= r as real <= Times(ExactPow(e, w, y), 1.0 + 2000000.0 * DELTA) + 3.0
  {
    PowTheorem(e, x, y, w, v);
    PowErrorIsSmall(e);
    assert HandsOn(x, y, PowArgument(x, y));
    ExpIsPositive(e, PowArgument(x, y), v);
    UpByError(v, ExactPow(e, w, y), e(POW_ERROR), r);
  }

  /** Even the smallest admitted argument has an exponential of at least one unit. */
  lemma ExpIsPositive(e: real -> real, x: int, v: int)
    requires IsExponential(e) && Admitted(x) && IsExp(x, v)
    ensures v > 0
  {
    if x < 0 {
      var n :| ApproximatesExp(-x, n) && n >= ONE_18 - x && v == Quot(ONE_36, n);
      InverseExponentFits(e, x, n);
      FloorAtLeast(ONE_36, n, 1);
    }
  }

  lemma InverseExponentFits(e: real -> real, x: int, n: int)
    requires IsExponential(e) && MIN_NATURAL_EXPONENT <= x < 0 && ApproximatesExp(-x, n) && n >= ONE_18
    ensures n <= ONE_36
  {
    ExpAboveAccuracy(e, -x, n);
    FortyOne(e);
    var y := (-x) as real / ONE_18 as real;
    Monotone(e, y, 41.0);
    Larger(ONE_18 as real, e(y), e(41.0));
    BelowInverse(e, 300.0 * DELTA);
    ByWeight(e(300.0 * DELTA), 1.5, 1.0 - 300.0 * DELTA);
    NaturalPositive(e, -x);
    Larger(Natural(e, -x), e(300.0 * DELTA), 1.5);
  }

  lemma FortyOne(e: real -> real)
    requires IsExponential(e)
    ensures Times(ONE_18 as real, e(41.0)) * 1.5 <= ONE_36 as real
  {
    Exponentials(e, 2);
    Exponentials(e, 4);
    Exponentials(e, 7);
    assert Exponent(2) == 32.0 && Exponent(4) == 8.0 && Exponent(7) == 1.0;
    var a, b, c := e(32.0), e(8.0), e(1.0);
    assert AddsUp(e, 32.0, 8.0) && AddsUp(e, 40.0, 1.0) && 32.0 + 8.0 == 40.0 && 40.0 + 1.0 == 41.0;
    Positive(e, 8.0);
    Positive(e, 1.0);
    assert a <= 79000000000000.0 && b <= 2981.0 && c <= 2.72;
    TimesMono(a, 79000000000000.0, b);
    TimesMono(Times(a, b), 79000000000000.0 * 2981.0, c);
  }
}
