/**
 What the rounded logarithm is worth: the constants divided out stand for their exponents, the series for
 what is left, and the whole is the natural logarithm to a few units of its eighteen decimals.
 */
module LogarithmAccuracy {
  import opened Truncating
  import opened RealErrors
  import opened NaturalExponential
  import opened ExponentialSeries
  import opened LogExpConstants
  import opened LogExpExponential
  import opened LogExpLogarithm
  import opened LogExpSeries
  import opened LogExpTable
  import opened LogExpAccuracy

  /** A number with so many decimals. */
  ghost function Decimal(v: int, one: int): real
    requires one > 0
  {
    v as real / one as real
  }

  // ---------------------------------------------------------------- the constants divided out

  lemma ProductSum(e: real -> real, f: real, s: real, c: real, g: real, t: real, d: real, st: real, cd: real)
    requires IsExponential(e) && Within(e, f, e(s), c) && Within(e, g, e(t), d) && s + t == st && c + d == cd
    ensures Within(e, Times(f, g), e(st), cd)
  {
    WithinProduct(e, f, e(s), g, e(t), c, d);
    assert AddsUp(e, s, t);
  }

  lemma DecimalSum(a: int, b: int, one: int)
    requires one > 0
    ensures Decimal(a, one) + Decimal(b, one) == Decimal(a + b, one)
  {
  }

  ghost predicate DivisorsAre(e: real -> real, f: real, sum: int, n: nat) {
    Within(e, f, e(Decimal(sum, ONE_20)), n as real * HALF_DIGIT)
  }

  lemma OneMoreDivisor(e: real -> real, f: real, sum: int, n: nat, a: real, x: int)
    requires IsExponential(e) && DivisorsAre(e, f, sum, n) && Within(e, a, e(Decimal(x, ONE_20)), HALF_DIGIT)
    ensures DivisorsAre(e, Times(f, a), sum + x, n + 1)
  {
    var s, t, st := Decimal(sum, ONE_20), Decimal(x, ONE_20), Decimal(sum + x, ONE_20);
    var c, cd := n as real * HALF_DIGIT, (n + 1) as real * HALF_DIGIT;
    DecimalSum(sum, x, ONE_20);
    ShareUp(n);
    ProductSum(e, f, s, c, a, t, HALF_DIGIT, st, cd);
  }

  lemma NoMoreDivisor(e: real -> real, f: real, sum: int, n: nat)
    requires IsExponential(e) && DivisorsAre(e, f, sum, n)
    ensures DivisorsAre(e, f, sum, n + 1)
  {
    ShareUp(n);
    WithinMore(e, f, e(Decimal(sum, ONE_20)), n as real * HALF_DIGIT, (n + 1) as real * HALF_DIGIT);
  }

  /** The constants divided out are the exponential of the sum that was added for them. */
  lemma {:induction false} DivisorsTheorem(e: real -> real, a: nat, sum: int, n: int)
    requires IsExponential(e) && 1 <= n <= 11
    ensures DivisorsAre(e, Divisors(a, sum, n), Exponents(a, sum, n), n - 1)
    decreases n
  {
    if n == 1 {
      AtZero(e);
      WithinSelf(e, 1.0);
    } else {
      DivisorsTheorem(e, a, sum, n - 1);
      var f, s := Divisors(a, sum, n - 1), Exponents(a, sum, n - 1);
      if DivideUpTo(a, sum, n - 1).0 >= A(n) {
        ConstantsTheorem(e, n);
        OneMoreDivisor(e, f, s, n - 2, Unscaled(A(n)), X(n));
      } else {
        NoMoreDivisor(e, f, s, n - 2);
      }
    }
  }

  lemma WholeOnes(e: real -> real, first: bool, second: bool)
    requires IsExponential(e)
    ensures var p, q := if first then A0 as real else 1.0, if second then A1 as real else 1.0;
            var s, t := if first then X0 else 0, if second then X1 else 0;
            Within(e, Times(p, q), e(Decimal(s + t, ONE_18)), 2.0 * HALF_DIGIT)
  {
    WholeConstantsTheorem(e);
    AtZero(e);
    WithinSelf(e, 1.0);
    WithinMore(e, 1.0, 1.0, 0.0, HALF_DIGIT);
    var p, q := if first then A0 as real else 1.0, if second then A1 as real else 1.0;
    var s, t := if first then X0 else 0, if second then X1 else 0;
    DecimalSum(s, t, ONE_18);
    ProductSum(e, p, Decimal(s, ONE_18), HALF_DIGIT, q, Decimal(t, ONE_18), HALF_DIGIT, Decimal(s + t, ONE_18), 2.0 * HALF_DIGIT);
  }

  lemma WholeDivisorsTheorem(e: real -> real, a: nat)
    requires IsExponential(e)
    ensures Within(e, WholeDivisors(a), e(Decimal(DivideWhole(a).1, ONE_18)), 2.0 * HALF_DIGIT)
  {
    QuotSign(a, A0);
    var first := a >= A0 * ONE_18;
    var b := if first then Quot(a, A0) else a;
    WholeOnes(e, first, b >= A1 * ONE_18);
  }

  // ---------------------------------------------------------------- the series

  lemma FromRatioIs(a: nat, one: nat)
    requires one > 0 && a > 0
    ensures Ratio(a, one) < 1.0 && FromRatio(Ratio(a, one)) == a as real / one as real
  {
    var z, d := Ratio(a, one), (a + one) as real;
    Quotient((a - one) as real, d);
    ByWeight(z, 1.0, d);
    assert Times(1.0 - z, d) == 2.0 * one as real;
    assert Times(1.0 + z, d) == 2.0 * a as real;
    if z >= 1.0 {
      assert false;
    }
    SameQuotient(1.0 + z, 1.0 - z, a as real, one as real, d);
  }

  lemma SameQuotient(p: real, q: real, a: real, b: real, d: real)
    requires q > 0.0 && b > 0.0 && d > 0.0 && Times(q, d) == 2.0 * b && Times(p, d) == 2.0 * a
    ensures p / q == a / b
  {
    var u, v := p / q, a / b;
    Quotient(p, q);
    Quotient(a, b);
    assert Times(u, Times(q, d)) == Times(Times(u, q), d) == 2.0 * a;
    assert Times(v, 2.0 * b) == 2.0 * a;
    PositiveTimes(q, d);
    ByWeight(u, v, Times(q, d));
    ByWeight(v, u, Times(q, d));
  }

  /** A bound on the odd powers of a ratio. */
  ghost function PowerBound(y: real, k: nat): real {
    if k == 0 then y else PowerBound(y, k - 1) * (y * y)
  }

  lemma {:induction false} OddPowerAtMost(z: real, y: real, k: nat)
    requires 0.0 <= z <= y
    ensures 0.0 <= OddPower(z, k) <= PowerBound(y, k)
  {
    if k > 0 {
      OddPowerAtMost(z, y, k - 1);
      TimesMono(z, y, z);
      TimesMono(z, y, y);
      TimesMono(0.0, z, z);
      TimesMono(z * z, y * y, PowerBound(y, k - 1));
      TimesMono(OddPower(z, k - 1), PowerBound(y, k - 1), z * z);
      TimesMono(0.0, OddPower(z, k - 1), z * z);
      TimesSymmetric(PowerBound(y, k - 1), z * z);
      TimesSymmetric(PowerBound(y, k - 1), y * y);
    }
  }

  /** A sum short of the exact one by at most m, of terms beyond which at most tail is missing. */
  lemma SumIs(e: real -> real, w: real, k: nat, s: real, m: real, tail: real)
    requires IsExponential(e) && 0.0 <= w <= 0.5 && m >= 0.0 && LogSum(w, k) - m <= s <= LogSum(w, k)
    requires LogTop(w, k) <= LogSum(w, k) + tail
    ensures Within(e, FromRatio(w), e(s), m + tail)
  {
    var u := FromRatio(w);
    LogarithmTheorem(e, w, k);
    FromRatioTimes(w);
    Positive(e, s);
    Monotone(e, s, LogSum(w, k));
    Monotone(e, LogTop(w, k), s + (m + tail));
    assert AddsUp(e, s, m + tail);
    LogTopAbove(w, k);
    assert AboveTangent(e, m + tail);
    TimesMono(1.0, e(m + tail), u);
    TimesSymmetric(u, e(m + tail));
  }

  lemma LogTopAbove(w: real, k: nat)
    requires w >= 0.0
    ensures LogTop(w, k) >= LogSum(w, k)
  {
    PowersOf(w, k + 1);
    assert OddPower(w, k + 1) / (2 * k + 3) as real >= 0.0;
  }

  lemma WithinInverse(e: real -> real, u: real, v: real, u': real, v': real, d: real)
    requires IsExponential(e) && Within(e, u, v, d) && Times(u, u') == 1.0 && Times(v, v') == 1.0 && u' > 0.0 && v' > 0.0
    ensures Within(e, u', v', d)
  {
    InverseHalf(u, v, u', v', e(d));
    InverseHalf(v, u, v', u', e(d));
  }

  lemma InverseHalf(u: real, v: real, u': real, v': real, f: real)
    requires u <= Times(v, f) && Times(u, u') == 1.0 && Times(v, v') == 1.0 && u' > 0.0 && v' > 0.0
    ensures v' <= Times(u', f)
  {
    PositiveTimes(u', v');
    TimesMono(u, Times(v, f), Times(u', v'));
    assert Times(u, Times(u', v')) == Times(Times(u, u'), v');
    assert Times(Times(v, f), Times(u', v')) == Times(Times(v, v'), Times(u', f));
  }

  /** The error of k terms with the remainder after them, in the decimals of one. */
  ghost function SeriesError(one: nat, k: nat, tail: real): real
    requires one > 0
  {
    Decimal(2 + 6 * k, one) + tail
  }

  lemma ShortDecimal(v: int, x: real, m: int, one: nat)
    requires one > 0 && ShortBy(v, Times(one as real, x), m)
    ensures x - Decimal(m, one) <= Decimal(v, one) <= x
  {
    var u := one as real;
    Quotient(v as real, u);
    Quotient(m as real, u);
    TimesSymmetric(u, x);
    DifferenceOfProducts(x, Decimal(m, one), u);
    ByWeight(Decimal(v, one), x, u);
    ByWeight(x - Decimal(m, one), Decimal(v, one), u);
  }

  lemma RatioMirrored(a: nat, one: nat)
    requires one > 0 && a > 0
    ensures Ratio(one, a) == -Ratio(a, one)
  {
    var d := (a + one) as real;
    Quotient((a - one) as real, d);
  }

  lemma InverseDecimal(a: nat, one: nat)
    requires one > 0 && a > 0
    ensures Times(Decimal(one, a), Decimal(a, one)) == 1.0 && Decimal(a, one) > 0.0
  {
    var u, v := a as real, one as real;
    Quotient(v, u);
    Quotient(u, v);
    assert Times(Decimal(one, a), Times(Decimal(a, one), v)) == v;
    assert Times(Times(Decimal(one, a), Decimal(a, one)), v) == v;
    ByWeight(Times(Decimal(one, a), Decimal(a, one)), 1.0, v);
    ByWeight(1.0, Times(Decimal(one, a), Decimal(a, one)), v);
    if Decimal(a, one) <= 0.0 {
      TimesMono(Decimal(a, one), 0.0, v);
    }
  }

  lemma SeriesAboveIs(e: real -> real, a: nat, one: nat, k: nat, tail: real)
    requires IsExponential(e) && 0 < one <= a && Ratio(a, one) <= 0.5
    requires LogTop(Ratio(a, one), k) <= LogSum(Ratio(a, one), k) + tail
    ensures Within(e, Decimal(a, one), e(Decimal(SeriesLn(a, one, k), one)), SeriesError(one, k, tail))
  {
    var w := Ratio(a, one);
    RatioNotNegative(a, one);
    SeriesTheorem(a, one, k);
    ShortDecimal(SeriesLn(a, one, k), LogSum(w, k), 2 + 6 * k, one);
    DecimalNotNegative(2 + 6 * k, one);
    SumIs(e, w, k, Decimal(SeriesLn(a, one, k), one), Decimal(2 + 6 * k, one), tail);
    FromRatioIs(a, one);
  }

  lemma RatioNotNegative(a: nat, one: nat)
    requires 0 < one <= a
    ensures Ratio(a, one) >= 0.0
  {
    var d := (a + one) as real;
    Quotient((a - one) as real, d);
    ByWeight(0.0, Ratio(a, one), d);
  }

  lemma DecimalNotNegative(v: nat, one: nat)
    requires one > 0
    ensures Decimal(v, one) >= 0.0
  {
    Quotient(v as real, one as real);
    ByWeight(0.0, Decimal(v, one), one as real);
  }

  lemma NegativeDecimal(v: int, one: int)
    requires one > 0
    ensures Decimal(-v, one) == -Decimal(v, one)
  {
    Quotient(v as real, one as real);
  }

  lemma TailAtMost(z: real, y: real, k: nat, tail: real)
    requires 0.0 <= z <= y && 4.0 * PowerBound(y, k + 1) <= tail * (2 * k + 3) as real
    ensures LogTop(z, k) <= LogSum(z, k) + tail
  {
    var p, d := OddPower(z, k + 1), (2 * k + 3) as real;
    OddPowerAtMost(z, y, k + 1);
    Quotient(p, d);
    assert Times(4.0 * (p / d), d) == 4.0 * p;
    ByWeight(4.0 * (p / d), tail, d);
  }

  // ---------------------------------------------------------------- what is left of the argument

  lemma SmallPowers()
    ensures 4.0 * PowerBound(0.03125, 6) <= DELTA * 13.0
  {
    assert PowerBound(0.03125, 1) == 0.000030517578125;
    assert PowerBound(0.03125, 3) == 0.000030517578125 / 1048576.0;
    assert PowerBound(0.03125, 5) == 0.000030517578125 / 1048576.0 / 1048576.0;
    assert PowerBound(0.03125, 6) == 0.000030517578125 / 1048576.0 / 1048576.0 / 1024.0;
  }

  lemma RatioAtMost(a: nat, one: nat, y: real)
    requires one > 0 && (a - one) as real <= Times(y, (a + one) as real)
    ensures Ratio(a, one) <= y
  {
    Quotient((a - one) as real, (a + one) as real);
    ByWeight(Ratio(a, one), y, (a + one) as real);
  }

  const REMAINDER_ERROR: real := 33.0 * DELTA

  lemma RemainderIs(e: real -> real, rest: nat)
    requires IsExponential(e) && ONE_20 <= rest < A(11)
    ensures Within(e, Decimal(rest, ONE_20), e(Decimal(SeriesLn(rest, ONE_20, 5), ONE_20)), REMAINDER_ERROR)
  {
    RatioAtMost(rest, ONE_20, 0.03125);
    RatioNotNegative(rest, ONE_20);
    SmallPowers();
    TailAtMost(Ratio(rest, ONE_20), 0.03125, 5, DELTA);
    SeriesAboveIs(e, rest, ONE_20, 5, DELTA);
  }

  /** The divisions lose less than 210 units. */
  const DIVISION_ERROR: real := 210.0 * DELTA

  lemma MadeUp(e: real -> real, a: nat, rest: nat, p: real)
    requires IsExponential(e) && rest >= ONE_20 && MakesUp(100.0 * a as real, rest as real, p, 210.0)
    ensures Within(e, Decimal(a, ONE_18), Times(Decimal(rest, ONE_20), p), DIVISION_ERROR)
  {
    var u, v := Decimal(a, ONE_18), Times(Decimal(rest, ONE_20), p);
    assert u == 100.0 * a as real / UNIT && v == Times(rest as real, p) / UNIT;
    assert Times(rest as real + 210.0, p) == Times(rest as real, p) + Times(210.0, p);
    TimesMono(UNIT, rest as real, p);
    assert Times(210.0, p) == Times(UNIT, p) * DIVISION_ERROR;
    TimesMono(0.0, rest as real, p);
    assert v <= u <= v + v * DIVISION_ERROR;
    assert Times(v, 1.0 + DIVISION_ERROR) == v + v * DIVISION_ERROR && Times(u, 1.0 + DIVISION_ERROR) == u + u * DIVISION_ERROR;
    WithinShare(e, u, v, DIVISION_ERROR);
  }

  /** The sum before it is rounded to 18 decimals. */
  function LnSum(a: nat): int {
    Decompose(a).1 + SeriesLn(Decompose(a).0, ONE_20, 5)
  }

  lemma ThreeParts(e: real -> real, u: real, r: real, w: real, q: real, x: real, y: real, z: real, all: real)
    requires IsExponential(e) && Within(e, u, Times(r, Times(w, q)), DIVISION_ERROR)
    requires Within(e, r, e(x), REMAINDER_ERROR) && Within(e, w, e(y), 2.0 * HALF_DIGIT) && Within(e, q, e(z), 10.0 * HALF_DIGIT)
    requires x + (y + z) == all
    ensures Within(e, u, e(all), 249.0 * DELTA)
  {
    ProductSum(e, w, y, 2.0 * HALF_DIGIT, q, z, 10.0 * HALF_DIGIT, y + z, 12.0 * HALF_DIGIT);
    ProductSum(e, r, x, REMAINDER_ERROR, Times(w, q), y + z, 12.0 * HALF_DIGIT, all, REMAINDER_ERROR + 12.0 * HALF_DIGIT);
    WithinChain(e, u, Times(r, Times(w, q)), e(all), DIVISION_ERROR, REMAINDER_ERROR + 12.0 * HALF_DIGIT);
    assert DIVISION_ERROR + (REMAINDER_ERROR + 12.0 * HALF_DIGIT) == 249.0 * DELTA;
  }

  lemma SumOfParts(series: int, whole: int, exponents: int)
    ensures Decimal(series, ONE_20) + (Decimal(whole, ONE_18) + Decimal(exponents, ONE_20))
         == Decimal(100 * whole + exponents + series, ONE_20)
  {
  }

  lemma LnSumIs(e: real -> real, a: nat)
    requires IsExponential(e) && ONE_18 <= a <= MAX_INT
    ensures Within(e, Decimal(a, ONE_18), e(Decimal(LnSum(a), ONE_20)), 249.0 * DELTA)
  {
    var (b, whole) := DivideWhole(a);
    var rest, exponents := Decompose(a).0, Exponents(b * 100, whole * 100, 11);
    var series := SeriesLn(rest, ONE_20, 5);
    var w, q := WholeDivisors(a), Divisors(b * 100, whole * 100, 11);
    WholeDecompositionTheorem(a);
    RemainderTheorem(a);
    RemainderIs(e, rest);
    WholeDivisorsTheorem(e, a);
    DivisorsTheorem(e, b * 100, whole * 100, 11);
    MadeUp(e, a, rest, Times(w, q));
    SumOfParts(series, whole, exponents);
    ThreeParts(e, Decimal(a, ONE_18), Decimal(rest, ONE_20), w, q, Decimal(series, ONE_20), Decimal(whole, ONE_18),
               Decimal(exponents, ONE_20), Decimal(LnSum(a), ONE_20));
  }

  lemma RoundedDecimal(v: int)
    ensures -100.0 * DELTA <= Decimal(Quot(v, 100), ONE_18) - Decimal(v, ONE_20) <= 100.0 * DELTA
  {
    FloorBracket(if v >= 0 then v else -v, 100);
  }

  /** Four and a half units of the eighteenth decimal. */
  const LN_ERROR: real := 450.0 * DELTA

  lemma LnUpIs(e: real -> real, a: nat)
    requires IsExponential(e) && ONE_18 <= a <= MAX_INT
    ensures Within(e, Decimal(a, ONE_18), e(Decimal(LnUp(a), ONE_18)), 349.0 * DELTA)
  {
    LnSumIs(e, a);
    RoundedDecimal(LnSum(a));
    var x, y := Decimal(LnSum(a), ONE_20), Decimal(LnUp(a), ONE_18);
    WithinExponents(e, x, y, 100.0 * DELTA);
    WithinChain(e, Decimal(a, ONE_18), e(x), e(y), 249.0 * DELTA, 100.0 * DELTA);
    assert 249.0 * DELTA + 100.0 * DELTA == 349.0 * DELTA;
  }

  lemma InverseOf(e: real -> real, a: nat, b: nat)
    requires IsExponential(e) && a > 0 && b >= ONE_18 && b * a <= ONE_36 < b * a + a
    ensures Within(e, Decimal(ONE_18, a), Decimal(b, ONE_18), 100.0 * DELTA)
  {
    var u, v, ar := Decimal(ONE_18, a), Decimal(b, ONE_18), a as real;
    Quotient(ONE_18 as real, ar);
    assert (b * a) as real == Times(b as real, ar);
    assert Times(v, ar) == Times(b as real, ar) / ONE_18 as real;
    ByWeight(v, u, ar);
    var up := Times(v, 1.0 + 100.0 * DELTA);
    assert up >= v + 1.0 / ONE_18 as real;
    assert Times(v + 1.0 / ONE_18 as real, ar) == (Times(b as real, ar) + ar) / ONE_18 as real;
    ByWeight(u, v + 1.0 / ONE_18 as real, ar);
    TimesMono(1.0, 1.0 + 100.0 * DELTA, u);
    TimesSymmetric(u, 1.0 + 100.0 * DELTA);
    WithinShare(e, u, v, 100.0 * DELTA);
  }

  lemma LnDownIs(e: real -> real, a: nat)
    requires IsExponential(e) && 0 < a < ONE_18
    ensures Within(e, Decimal(a, ONE_18), e(Decimal(LnValue(a), ONE_18)), LN_ERROR)
  {
    QuotSign(ONE_36, a);
    var b := Quot(ONE_36, a);
    InverseAtLeastOne(a);
    NatQuotient(ONE_36, a);
    FloorBracket(ONE_36, a);
    InverseOf(e, a, b);
    LnUpIs(e, b);
    var s := Decimal(LnUp(b), ONE_18);
    WithinChain(e, Decimal(ONE_18, a), Decimal(b, ONE_18), e(s), 100.0 * DELTA, 349.0 * DELTA);
    WithinMore(e, Decimal(ONE_18, a), e(s), 100.0 * DELTA + 349.0 * DELTA, LN_ERROR);
    InverseDecimal(a, ONE_18);
    NegativeDecimal(LnUp(b), ONE_18);
    Opposite(e, s);
    Positive(e, -s);
    WithinInverse(e, Decimal(ONE_18, a), e(s), Decimal(a, ONE_18), e(-s), LN_ERROR);
  }

  /**
   The rounded logarithm of any admitted number is the natural one to four and a half units of the
   eighteenth decimal: its exponential is the number but for that factor.
   */
  lemma LnAccuracy(e: real -> real, a: nat)
    requires IsExponential(e) && 0 < a <= MAX_INT
    ensures Within(e, Decimal(a, ONE_18), e(Decimal(LnValue(a), ONE_18)), LN_ERROR)
  {
    if a < ONE_18 {
      LnDownIs(e, a);
    } else {
      LnUpIs(e, a);
      WithinMore(e, Decimal(a, ONE_18), e(Decimal(LnValue(a), ONE_18)), 349.0 * DELTA, LN_ERROR);
    }
  }
}
