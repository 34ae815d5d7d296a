/**
 What the rounded exponential and logarithm are worth: each is the natural one to a few units of its
 eighteen decimals, and so they are inverse to each other.
 */
module LogExpAccuracy {
  import opened Truncating
  import opened RealErrors
  import opened NaturalExponential
  import opened ExponentialSeries
  import opened LogExpConstants
  import opened LogExpExponential
  import opened LogExpTable
  import opened LogExpPower

  // ---------------------------------------------------------------- the exponential

  /** What of y the constants up to the n-th leave over. */
  function Rest(y: nat, n: int): int
    requires 1 <= n <= 9
  {
    if n == 1 then y else y % X(n)
  }

  /** f is the exponential of y less the rest, to n half digits. */
  ghost predicate FactorIs(e: real -> real, f: real, y: int, rest: int, n: nat) {
    Within(e, f, e((y - rest) as real / UNIT), n as real * HALF_DIGIT)
  }

  lemma FactorStep(e: real -> real, f: real, s: real, d: real, a: real, x: real)
    requires IsExponential(e) && Within(e, f, e(s), d) && Within(e, a, e(x), HALF_DIGIT)
    ensures Within(e, Times(f, a), e(s + x), d + HALF_DIGIT)
  {
    WithinProduct(e, f, e(s), a, e(x), d, HALF_DIGIT);
    assert AddsUp(e, s, x);
  }

  lemma RestStep(y: nat, n: int)
    requires 2 <= n <= 9 && y < 2 * X(2)
    ensures Rest(y, n - 1) - Rest(y, n) == if Contains(y, n) then X(n) else 0
  {
    Remainder(y, n, Rest(y, n - 1));
  }

  lemma ShareUp(n: nat)
    ensures n as real * HALF_DIGIT + HALF_DIGIT == (n + 1) as real * HALF_DIGIT
  {
  }

  lemma SumUp(y: int, rest: int, rest': int, x: int)
    requires rest - rest' == x
    ensures (y - rest) as real / UNIT + x as real / UNIT == (y - rest') as real / UNIT
  {
  }

  lemma FactorSum(e: real -> real, f: real, s: real, d: real, a: real, x: real, s': real, d': real)
    requires IsExponential(e) && Within(e, f, e(s), d) && Within(e, a, e(x), HALF_DIGIT)
    requires s + x == s' && d + HALF_DIGIT == d'
    ensures Within(e, Times(f, a), e(s'), d')
  {
    FactorStep(e, f, s, d, a, x);
  }

  lemma WithFactor(e: real -> real, f: real, y: int, rest: int, rest': int, a: real, x: int, n: nat)
    requires IsExponential(e) && FactorIs(e, f, y, rest, n) && Within(e, a, e(x as real / UNIT), HALF_DIGIT)
    requires rest - rest' == x
    ensures FactorIs(e, Times(f, a), y, rest', n + 1)
  {
    var s, s' := (y - rest) as real / UNIT, (y - rest') as real / UNIT;
    var d, d' := n as real * HALF_DIGIT, (n + 1) as real * HALF_DIGIT;
    ShareUp(n);
    SumUp(y, rest, rest', x);
    FactorSum(e, f, s, d, a, x as real / UNIT, s', d');
  }

  lemma WithoutFactor(e: real -> real, f: real, y: int, rest: int, n: nat)
    requires IsExponential(e) && FactorIs(e, f, y, rest, n)
    ensures FactorIs(e, f, y, rest, n + 1)
  {
    ShareUp(n);
    WithinMore(e, f, e((y - rest) as real / UNIT), n as real * HALF_DIGIT, (n + 1) as real * HALF_DIGIT);
  }

  lemma NextFactor(e: real -> real, y: nat, n: int)
    requires IsExponential(e) && 2 <= n <= 9 && y < 2 * X(2) && FactorIs(e, Factors(y, n - 1), y, Rest(y, n - 1), n - 2)
    ensures FactorIs(e, Factors(y, n), y, Rest(y, n), n - 1)
  {
    RestStep(y, n);
    var f, rest, rest' := Factors(y, n - 1), Rest(y, n - 1), Rest(y, n);
    if Contains(y, n) {
      ConstantsTheorem(e, n);
      WithFactor(e, f, y, rest, rest', A(n) as real / UNIT, X(n), n - 2);
    } else {
      WithoutFactor(e, f, y, rest, n - 2);
    }
  }

  lemma {:induction false} FactorsTheorem(e: real -> real, y: nat, n: int)
    requires IsExponential(e) && 1 <= n <= 9 && y < 2 * X(2)
    ensures FactorIs(e, Factors(y, n), y, Rest(y, n), n - 1)
    decreases n
  {
    if n == 1 {
      AtZero(e);
      WithinSelf(e, 1.0);
    } else {
      FactorsTheorem(e, y, n - 1);
      NextFactor(e, y, n);
    }
  }

  /** A Taylor term at a quarter or less. */
  ghost function QuarterTerm(n: nat): real {
    if n == 0 then 1.0 else QuarterTerm(n - 1) / (4 * n) as real
  }

  lemma QuarterStep(n: real, t: real, t': real, q: real, q': real, r: real)
    requires n >= 1.0 && 0.0 <= r <= 0.25 && 0.0 <= t <= q && n * t' == Times(t, r) && 4.0 * (n * q') == q
    ensures t' <= q'
  {
    TimesMono(r, 0.25, t);
    TimesSymmetric(r, t);
    Cancel(n, t', q');
  }

  lemma QuarterTermTimes(n: nat)
    requires n > 0
    ensures 4.0 * (n as real * QuarterTerm(n)) == QuarterTerm(n - 1)
  {
    var q, d := QuarterTerm(n - 1), (4 * n) as real;
    assert q / d * d == q;
  }

  lemma {:induction false} AtMostQuarter(r: real, n: nat)
    requires 0.0 <= r <= 0.25
    ensures 0.0 <= TaylorTerm(r, n) <= QuarterTerm(n)
  {
    if n > 0 {
      AtMostQuarter(r, n - 1);
      TermsPositive(r, n);
      TermTimes(r, n);
      QuarterTermTimes(n);
      QuarterStep(n as real, TaylorTerm(r, n - 1), TaylorTerm(r, n), QuarterTerm(n - 1), QuarterTerm(n), r);
    }
  }

  /** The terms after the twelfth come to at most this. */
  const TAYLOR_ERROR: real := 250.0 * DELTA

  lemma QuarterTerms()
    ensures QuarterTerm(13) + 2.0 * QuarterTerm(14) <= TAYLOR_ERROR
  {
    assert QuarterTerm(2) == 1.0 / 32.0;
    assert QuarterTerm(4) == 1.0 / 6144.0;
    assert QuarterTerm(6) == 1.0 / 2949120.0;
    assert QuarterTerm(8) == 1.0 / 2642411520.0;
    assert QuarterTerm(10) == 1.0 / 3805072588800.0;
    assert QuarterTerm(12) == 1.0 / 8036313307545600.0;
  }

  lemma TaylorIs(e: real -> real, r: real)
    requires IsExponential(e) && 0.0 <= r <= 0.25
    ensures Within(e, TaylorSum(r, 12), e(r), TAYLOR_ERROR)
  {
    TaylorBelow(e, r, 12);
    TaylorAbove(e, r, 13);
    AtMostQuarter(r, 13);
    AtMostQuarter(r, 14);
    QuarterTerms();
    TermsPositive(r, 12);
    AboutTaylor(e, TaylorSum(r, 12), e(r), TaylorTerm(r, 13), TaylorTerm(r, 14));
  }

  lemma AboutTaylor(e: real -> real, t: real, u: real, v: real, w: real)
    requires IsExponential(e) && t >= 1.0 && t <= u <= t + v + 2.0 * w && v + 2.0 * w <= TAYLOR_ERROR
    ensures Within(e, t, u, TAYLOR_ERROR)
  {
    TimesMono(1.0, t, TAYLOR_ERROR);
    TimesMono(1.0, u, TAYLOR_ERROR);
    assert Times(t, 1.0 + TAYLOR_ERROR) == t + Times(t, TAYLOR_ERROR);
    assert Times(u, 1.0 + TAYLOR_ERROR) == u + Times(u, TAYLOR_ERROR);
    WithinShare(e, t, u, TAYLOR_ERROR);
  }

  /** The exponent of the first factor. */
  function FirstExponent(x: int): int {
    x - AfterFirst(x)
  }

  lemma FirstIs(e: real -> real, x: nat)
    requires IsExponential(e)
    ensures Within(e, First(x) as real, e(FirstExponent(x) as real / ONE_18 as real), HALF_DIGIT)
  {
    WholeConstantsTheorem(e);
    if x < X1 {
      AtZero(e);
      WithinSelf(e, 1.0);
      WithinMore(e, 1.0, 1.0, 0.0, HALF_DIGIT);
    }
  }

  /** All constants and the series together. */
  const EXACT_ERROR: real := 9.0 * HALF_DIGIT + TAYLOR_ERROR

  lemma ThreeFactors(e: real -> real, a: real, x: real, b: real, y: real, t: real, r: real, all: real)
    requires x + (y + r) == all
    requires IsExponential(e) && Within(e, a, e(x), HALF_DIGIT) && Within(e, b, e(y), 8.0 * HALF_DIGIT)
    requires Within(e, t, e(r), TAYLOR_ERROR)
    ensures Within(e, Times(a, Times(b, t)), e(all), EXACT_ERROR)
  {
    WithinProduct(e, b, e(y), t, e(r), 8.0 * HALF_DIGIT, TAYLOR_ERROR);
    assert AddsUp(e, y, r) && AddsUp(e, x, y + r);
    WithinProduct(e, a, e(x), Times(b, t), e(y + r), HALF_DIGIT, 8.0 * HALF_DIGIT + TAYLOR_ERROR);
  }

  lemma ExponentsAddUp(x: int, rest: int)
    ensures FirstExponent(x) as real / ONE_18 as real + ((100 * AfterFirst(x) - rest) as real / UNIT + rest as real / UNIT)
         == x as real / ONE_18 as real
  {
  }

  lemma RestIsSmall(y: nat)
    ensures 0 <= Rest(y, 9) && 0.0 <= Rest(y, 9) as real / UNIT <= 0.25
  {
    Constants(9);
  }

  lemma EightFactors(e: real -> real, y: nat, n: int, rest: int)
    requires IsExponential(e) && y < 2 * X(2) && n == 9 && rest == Rest(y, n)
    ensures Within(e, Factors(y, n), e((y - rest) as real / UNIT), 8.0 * HALF_DIGIT)
  {
    FactorsTheorem(e, y, n);
  }

  lemma AfterFirstBounds(x: nat)
    requires x <= MAX_NATURAL_EXPONENT
    ensures 0 <= AfterFirst(x) && 100 * AfterFirst(x) < 2 * X(2)
  {
  }

  /** The parts of the exact value: its first factor, the constants, and the series of the rest. */
  lemma PartsAre(e: real -> real, x: nat, f: real, s: real, r: real, t: real)
    requires IsExponential(e) && Within(e, f, e(s), 8.0 * HALF_DIGIT) && Within(e, t, e(r), TAYLOR_ERROR)
    requires FirstExponent(x) as real / ONE_18 as real + (s + r) == x as real / ONE_18 as real
    ensures Within(e, Times(First(x) as real, Times(f, t)), e(x as real / ONE_18 as real), EXACT_ERROR)
  {
    FirstIs(e, x);
    ThreeFactors(e, First(x) as real, FirstExponent(x) as real / ONE_18 as real, f, s, t, r, x as real / ONE_18 as real);
  }

  lemma AllPartsAre(e: real -> real, x: nat, y: nat, n: int, rest: int, terms: nat)
    requires IsExponential(e) && x <= MAX_NATURAL_EXPONENT && y == 100 * AfterFirst(x) && n == 9 && rest == Rest(y, n) && terms == 12
    ensures Within(e, Times(First(x) as real, Times(Factors(y, n), TaylorSum(rest as real / UNIT, terms))),
                   e(x as real / ONE_18 as real), EXACT_ERROR)
  {
    var r, s := rest as real / UNIT, (y - rest) as real / UNIT;
    AfterFirstBounds(x);
    EightFactors(e, y, n, rest);
    RestIsSmall(y);
    TaylorIs(e, r);
    ExponentsAddUp(x, rest);
    PartsAre(e, x, Factors(y, n), s, r, TaylorSum(r, terms));
  }

  /** The value the rounded exponential approximates is the natural exponential. */
  lemma ExactTheorem(e: real -> real, x: nat)
    requires IsExponential(e) && x <= MAX_NATURAL_EXPONENT
    ensures Within(e, ExactExp(x), e(x as real / ONE_18 as real), EXACT_ERROR)
  {
    var y: nat := 100 * AfterFirst(x);
    AllPartsAre(e, x, y, 9, Rest(y, 9), 12);
  }

  /** The natural exponential of a number with 18 decimals, in units of the eighteenth. */
  ghost function Natural(e: real -> real, x: int): real {
    Times(ONE_18 as real, e(x as real / ONE_18 as real))
  }

  /** v is the exact value u rounded down to a unit, after relative errors that come to d. */
  ghost predicate RoundsDown(e: real -> real, v: int, u: real, d: real) {
    v as real <= Times(u, e(d)) && u <= Times((v + 1) as real, e(d))
  }

  /** Four units in the eighteenth digit. */
  const EXP_ERROR: real := 400.0 * DELTA

  lemma WithinScaled(e: real -> real, k: real, u: real, v: real, d: real)
    requires IsExponential(e) && k >= 0.0 && Within(e, u, v, d)
    ensures Within(e, Times(k, u), Times(k, v), d)
  {
    WithinSelf(e, k);
    WithinProduct(e, k, k, u, v, 0.0, d);
    assert 0.0 + d == d;
  }

  lemma GrownBack(e: real -> real, u: real, v: real)
    requires IsExponential(e) && u >= 0.0 && Times(u, 1.0 - ROUNDINGS as real * DELTA) <= v
    ensures u <= Times(v, e(34.0 * DELTA))
  {
    var a, b := 1.0 - ROUNDINGS as real * DELTA, 1.0 + 34.0 * DELTA;
    assert AboveTangent(e, 34.0 * DELTA);
    assert Times(a, b) >= 1.0;
    TimesMono(1.0, Times(a, b), u);
    TimesSymmetric(Times(a, b), u);
    TimesMono(0.0, u, a);
    TimesSymmetric(u, a);
    TimesMono(Times(u, a), v, b);
    assert Times(Times(u, a), b) == Times(u, Times(a, b));
    TimesMono(b, e(34.0 * DELTA), v);
    TimesSymmetric(b, v);
    TimesSymmetric(e(34.0 * DELTA), v);
  }

  lemma FromExact(e: real -> real, r: int, u: real, n: real)
    requires IsExponential(e) && Within(e, u, n, EXACT_ERROR) && r >= 0
    requires r as real <= u && Times(u, 1.0 - ROUNDINGS as real * DELTA) <= (r + 1) as real
    ensures RoundsDown(e, r, n, 300.0 * DELTA)
  {
    WithinMore(e, u, n, EXACT_ERROR, 300.0 * DELTA);
    GrownBack(e, u, (r + 1) as real);
    WithinHalf(e, n, u, (r + 1) as real, EXACT_ERROR, 34.0 * DELTA);
    Monotone(e, EXACT_ERROR + 34.0 * DELTA, 300.0 * DELTA);
    Larger((r + 1) as real, e(EXACT_ERROR + 34.0 * DELTA), e(300.0 * DELTA));
  }

  /** The rounded exponential of an argument that is not negative, to three units in the eighteenth digit and one. */
  lemma ExpAboveAccuracy(e: real -> real, x: nat, r: int)
    requires IsExponential(e) && x <= MAX_NATURAL_EXPONENT && r >= 0 && ApproximatesExp(x, r)
    ensures RoundsDown(e, r, Natural(e, x), 300.0 * DELTA)
  {
    var v := ExactExp(x);
    var u := Times(ONE_18 as real, v);
    ExactTheorem(e, x);
    WithinScaled(e, ONE_18 as real, v, e(x as real / ONE_18 as real), EXACT_ERROR);
    FromExact(e, r, u, Natural(e, x));
  }

  lemma Larger(u: real, v: real, w: real)
    requires u >= 0.0 && v <= w
    ensures Times(u, v) <= Times(u, w)
  {
    TimesMono(v, w, u);
    TimesSymmetric(u, v);
    TimesSymmetric(u, w);
  }

  lemma RoundsDownMore(e: real -> real, v: int, u: real, d: real, d': real)
    requires IsExponential(e) && RoundsDown(e, v, u, d) && d <= d' && u >= 0.0 && v >= 0
    ensures RoundsDown(e, v, u, d')
  {
    Monotone(e, d, d');
    Larger(u, e(d), e(d'));
    Larger((v + 1) as real, e(d), e(d'));
  }

  lemma NaturalPositive(e: real -> real, x: int)
    requires IsExponential(e)
    ensures Natural(e, x) > 0.0 && Times(Natural(e, x), Natural(e, -x)) == ONE_36 as real
  {
    var y := x as real / ONE_18 as real;
    Positive(e, y);
    Opposite(e, y);
    assert (-x) as real / ONE_18 as real == -y;
    PositiveTimes(ONE_18 as real, e(y));
    FourFactors(ONE_18 as real, ONE_18 as real, e(y), e(-y));
    TimesSymmetric(e(y), e(-y));
    Scaled(ONE_18 as real, e(y), e(-y));
  }

  lemma Scaled(k: real, u: real, v: real)
    ensures Times(Times(k, u), Times(k, v)) == Times(Times(k, k), Times(u, v))
  {
  }

  /** One unit more or less of a number of at least one is within a relative unit. */
  lemma OneUnit(e: real -> real, n: int)
    requires IsExponential(e) && n >= ONE_18
    ensures (n + 1) as real <= Times(n as real, e(100.0 * DELTA))
  {
    assert AboveTangent(e, 100.0 * DELTA);
    Larger(n as real, 1.0 + 100.0 * DELTA, e(100.0 * DELTA));
  }

  lemma InverseRounds(e: real -> real, n: int, v: int, u: real, w: real)
    requires IsExponential(e) && n >= ONE_18 && u > 0.0 && w > 0.0 && Times(u, w) == ONE_36 as real
    requires RoundsDown(e, n, w, 300.0 * DELTA) && v >= 0 && v * n <= ONE_36 < v * n + n
    ensures RoundsDown(e, v, u, EXP_ERROR)
  {
    var nr, vr := n as real, v as real;
    assert (v * n) as real == Times(vr, nr) && (v * n + n) as real == Times((v + 1) as real, nr);
    OneUnit(e, n);
    WithinHalf(e, w, (n + 1) as real, nr, 300.0 * DELTA, 100.0 * DELTA);
    assert 300.0 * DELTA + 100.0 * DELTA == EXP_ERROR;
    Larger(u, w, Times(nr, e(EXP_ERROR)));
    Larger(u, nr, Times(w, e(300.0 * DELTA)));
    Moved(u, nr, e(EXP_ERROR));
    Moved(u, w, e(300.0 * DELTA));
    ByWeight(vr, Times(u, e(EXP_ERROR)), nr);
    Positive(e, 300.0 * DELTA);
    TimesMono(Times(u, w), Times((v + 1) as real, nr), e(300.0 * DELTA));
    Moved((v + 1) as real, nr, e(300.0 * DELTA));
    TimesSymmetric(Times((v + 1) as real, nr), e(300.0 * DELTA));
    Monotone(e, 300.0 * DELTA, EXP_ERROR);
    ByWeight(u, Times((v + 1) as real, e(300.0 * DELTA)), nr);
    Larger((v + 1) as real, e(300.0 * DELTA), e(EXP_ERROR));
  }

  lemma Moved(u: real, n: real, f: real)
    ensures Times(u, Times(n, f)) == Times(Times(u, f), n) == Times(Times(u, n), f)
  {
  }

  lemma ExpBelowAccuracy(e: real -> real, x: int, n: int)
    requires IsExponential(e) && MIN_NATURAL_EXPONENT <= x < 0 && n >= ONE_18 && ApproximatesExp(-x, n)
    ensures RoundsDown(e, Quot(ONE_36, n), Natural(e, x), EXP_ERROR)
  {
    ExpAboveAccuracy(e, -x, n);
    NaturalPositive(e, x);
    NaturalPositive(e, -x);
    FloorBracket(ONE_36, n);
    NatQuotient(ONE_36, n);
    InverseRounds(e, n, ONE_36 / n, Natural(e, x), Natural(e, -x));
  }

  /**
   The rounded exponential of any admitted argument is the natural one, rounded down to a unit of the
   eighteenth decimal, but for a relative error of four units in the eighteenth digit.
   */
  lemma ExpAccuracy(e: real -> real, x: int, v: int)
    requires IsExponential(e) && MIN_NATURAL_EXPONENT <= x <= MAX_NATURAL_EXPONENT && IsExp(x, v)
    ensures RoundsDown(e, v, Natural(e, x), EXP_ERROR)
  {
    if x >= 0 {
      ExpAboveAccuracy(e, x, v);
      NaturalPositive(e, x);
      RoundsDownMore(e, v, Natural(e, x), 300.0 * DELTA, EXP_ERROR);
    } else {
      var n :| ApproximatesExp(-x, n) && n >= ONE_18 - x && v == Quot(ONE_36, n);
      ExpBelowAccuracy(e, x, n);
    }
  }
}
