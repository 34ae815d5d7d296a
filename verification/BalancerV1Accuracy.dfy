/**
 How close Balancer V1's rounded powers are to the exact ones for bases up to one, the side the
 selling formula works on.
 */
module BalancerV1Accuracy {
  import opened Wrappers
  import opened Sides
  import opened RealErrors
  import opened RoundedPowers
  import opened BalancerV1Math
  import opened BalancerV1Series
  import opened BalancerV1Pool

  const HALF: real := 0.5 / UNIT

  lemma NearestFraction(w: int, p: int)
    requires 2 * p - ONE <= 2 * (w * ONE) <= 2 * p + ONE
    ensures -HALF <= Fraction(w) - p as real / (UNIT * UNIT) <= HALF
  {
  }

  lemma FractionProduct(z: int, a: int)
    ensures Times(Fraction(z), Fraction(a)) == (z * a) as real / (UNIT * UNIT)
  {
    assert (z * a) as real == z as real * a as real;
  }

  lemma BmulRounds(z: int, a: int)
    requires 0 <= z <= ONE && 0 <= a <= ONE
    ensures RoundedProduct(Bmul(z, a), z, a, HALF, HALF)
    ensures z == ONE ==> Bmul(z, a) == a
  {
    BmulShare(z, a);
    BmulBracket(z, a);
    NearestFraction(Bmul(z, a), z * a);
    FractionProduct(z, a);
  }

  lemma {:induction false} PowiFromApproximates(x: real, a: int, z: int, c: nat, m: nat, n: nat, k: nat)
    requires 0.0 <= x <= 1.0 && n >= 1 && k == m + 2 * (n * c)
    requires Approximates(z, x, m, HALF, HALF) && Approximates(a, x, n, HALF, HALF)
    ensures Approximates(PowiFrom(a, z, c), x, k, HALF, HALF)
    decreases c
  {
    if c != 0 {
      var a' := Bmul(a, a);
      BmulRounds(a, a);
      PowersMultiply(a', a, a, x, n, n, HALF, HALF);
      BmulRounds(z, a');
      HalvedExponent(n, c);
      if c % 2 != 0 {
        PowersMultiply(Bmul(z, a'), z, a', x, m, n + n, HALF, HALF);
        PowiFromApproximates(x, a', Bmul(z, a'), c / 2, m + (n + n), n + n, k);
      } else {
        PowiFromApproximates(x, a', z, c / 2, m, n + n, k);
      }
    }
  }

  lemma HalfUnits(m: nat)
    ensures Times(UNIT * HALF, m as real) == 0.5 * m as real
  {
  }

  lemma PowiApproximates(x: nat, n: nat)
    requires x <= BONE && n >= 1
    ensures Approximates(Powi(x, n), Fraction(x), n, HALF, HALF)
  {
    var f := Fraction(x);
    assert Power(f, 1) == Times(f, Power(f, 0)) == f;
    PowiFromApproximates(f, x, if n % 2 != 0 then x else BONE, n / 2, n % 2, 1, n);
  }

  /** A rounded value is an exact one, in units, to within an error. */
  ghost predicate InUnits(v: int, exact: real, e: real) {
    Near(v as real, UNIT * exact, e)
  }

  /** The n-th power of a base up to one is exact to (n - 1) / 2 units, and stays within [0, 1]. */
  lemma PowiTheorem(x: nat, n: nat)
    requires x <= BONE && n >= 1
    ensures 0 <= Powi(x, n) <= BONE
    ensures InUnits(Powi(x, n), Power(Fraction(x), n), 0.5 * (n - 1) as real)
  {
    PowiApproximates(x, n);
    ScaledError(Powi(x, n), Power(Fraction(x), n), HALF, HALF, n - 1);
    HalfUnits(n - 1);
  }

  // ---------------------------------------------------------------- the whole power

  /** (base / BONE) ^ (remain / BONE) by m terms of its binomial series. */
  ghost function FractionalPower(base: int, remain: int, m: nat): real {
    PartialSum(remain, base, m) / UNIT
  }

  ghost function ExactParts(base: int, whole: nat, remain: int, m: nat): real {
    Times(Power(Fraction(base), whole), if remain == 0 then 1.0 else FractionalPower(base, remain, m))
  }

  /** (base / BONE) ^ (exp / BONE), with m terms of the binomial series for the fractional part. */
  ghost function ExactPower(base: int, exp: nat, m: nat): real {
    ExactParts(base, exp / BONE, exp % BONE, m)
  }

  /** Half a unit for each rounding of the whole power, and the error of the series. */
  ghost function PowerError(exp: nat): real {
    0.5 * (exp / BONE) as real + SERIES_ERROR
  }

  lemma ShrunkBy(d: real, u: real, e: real)
    requires -e <= d <= e && 0.0 <= u <= 1.0
    ensures -e <= Times(d, u) <= e
  {
    TimesSymmetric(d, u);
    TimesSymmetric(-d, u);
    if d >= 0.0 {
      TimesMono(0.0, u, d);
      TimesMono(u, 1.0, d);
    } else {
      TimesMono(0.0, u, -d);
      TimesMono(u, 1.0, -d);
      SignedProduct(u, d);
    }
  }

  lemma TwoErrors(u: real, v: real, s: real, t: real, w: real, e1: real, e2: real, e3: real)
    requires 0.0 <= v <= 1.0 && 0.0 <= s <= 1.0
    requires Near(u, s, e1) && Near(v, t, e2) && Near(w, Times(u, v), e3)
    ensures Near(w, Times(s, t), e1 + e2 + e3)
  {
    ShrunkBy(u - s, v, e1);
    ShrunkBy(v - t, s, e2);
    DifferenceOfProducts(u, s, v);
    DifferenceOfProducts(v, t, s);
    TimesSymmetric(v, s);
    TimesSymmetric(t, s);
  }

  lemma ScaledNear(z: int, s: real, e: real)
    ensures Near(Fraction(z), s, e) <==> Near(z as real, UNIT * s, UNIT * e)
  {
    assert z as real == UNIT * Fraction(z);
  }

  lemma PartsOf(exp: nat)
    ensures Btoi(Bfloor(exp)) == exp / BONE && exp - Bfloor(exp) == exp % BONE
  {
  }

  lemma ProductNear(z: int, a: int, s: real, t: real, e1: real, e2: real)
    requires 0 <= z <= BONE && 0 <= a <= BONE && 0.0 <= s <= 1.0
    requires InUnits(z, s, e1) && InUnits(a, t, e2)
    ensures InUnits(Bmul(z, a), Times(s, t), e1 + e2 + 0.5)
  {
    BmulRounds(z, a);
    ScaledNear(z, s, e1 / UNIT);
    ScaledNear(a, t, e2 / UNIT);
    TwoErrors(Fraction(z), Fraction(a), s, t, Fraction(Bmul(z, a)), e1 / UNIT, e2 / UNIT, HALF);
    ScaledNear(Bmul(z, a), Times(s, t), e1 / UNIT + e2 / UNIT + HALF);
  }

  lemma FractionalNear(base: nat, remain: nat, m: nat)
    requires 2 * (BONE / 3) <= base <= BONE && remain < BONE && m >= MAX_ITERATIONS
    ensures ApproxPower(base, remain).Success? && 0 <= ApproxPower(base, remain).value <= BONE
    ensures InUnits(ApproxPower(base, remain).value, FractionalPower(base, remain, m), SERIES_ERROR)
  {
    PowerSeriesTheorem(base, remain, m);
    FromUnits(ApproxPower(base, remain).value, PartialSum(remain, base, m), SERIES_ERROR);
  }

  lemma FromUnits(v: int, x: real, e: real)
    requires Near(v as real, x, e)
    ensures InUnits(v, x / UNIT, e)
  {
  }

  /** A whole power and a fractional one, each near its exact value, multiplied. */
  lemma CombineNear(z: int, a: int, s: real, t: real, whole: nat)
    requires whole >= 1 && 0 <= z <= BONE && 0 <= a <= BONE && 0.0 <= s <= 1.0
    requires InUnits(z, s, 0.5 * (whole - 1) as real) && InUnits(a, t, SERIES_ERROR)
    ensures InUnits(Bmul(z, a), Times(s, t), 0.5 * whole as real + SERIES_ERROR)
  {
    ProductNear(z, a, s, t, 0.5 * (whole - 1) as real, SERIES_ERROR);
  }

  lemma WholeTimesFractional(base: nat, whole: nat, remain: nat, m: nat)
    requires 2 * (BONE / 3) <= base <= BONE && whole >= 1 && remain < BONE && m >= MAX_ITERATIONS
    ensures ApproxPower(base, remain).Success?
    ensures InUnits(Bmul(Powi(base, whole), ApproxPower(base, remain).value),
                    Times(Power(Fraction(base), whole), FractionalPower(base, remain, m)), 0.5 * whole as real + SERIES_ERROR)
  {
    PowiTheorem(base, whole);
    FractionalNear(base, remain, m);
    PowerOfFraction(Fraction(base), whole);
    CombineNear(Powi(base, whole), ApproxPower(base, remain).value, Power(Fraction(base), whole),
                FractionalPower(base, remain, m), whole);
  }

  function RoundedParts(base: nat, whole: nat, remain: nat): int
    requires 2 * (BONE / 3) <= base <= BONE && remain < BONE
  {
    if remain == 0 then Powi(base, whole)
    else Bmul(Powi(base, whole), ApproxPower(base, remain).GetOr(0))
  }

  ghost predicate PowerNear(v: int, exact: real, whole: nat) {
    InUnits(v, exact, 0.5 * whole as real + SERIES_ERROR)
  }

  lemma FractionalOnly(base: nat, remain: nat, m: nat)
    requires 2 * (BONE / 3) <= base <= BONE && 0 < remain < BONE && m >= MAX_ITERATIONS
    ensures PowerNear(RoundedParts(base, 0, remain), ExactParts(base, 0, remain, m), 0)
  {
    FractionalNear(base, remain, m);
    BmulRounds(BONE, ApproxPower(base, remain).value);
    assert ExactParts(base, 0, remain, m) == Times(1.0, FractionalPower(base, remain, m)) == FractionalPower(base, remain, m);
  }

  lemma WholeOnly(base: nat, whole: nat, m: nat)
    requires 2 * (BONE / 3) <= base <= BONE
    ensures PowerNear(RoundedParts(base, whole, 0), ExactParts(base, whole, 0, m), whole)
  {
    TimesSymmetric(Power(Fraction(base), whole), 1.0);
    assert ExactParts(base, whole, 0, m) == Power(Fraction(base), whole);
    if whole >= 1 {
      PowiTheorem(base, whole);
    }
  }

  lemma BothParts(base: nat, whole: nat, remain: nat, m: nat)
    requires 2 * (BONE / 3) <= base <= BONE && whole >= 1 && 0 < remain < BONE && m >= MAX_ITERATIONS
    ensures PowerNear(RoundedParts(base, whole, remain), ExactParts(base, whole, remain, m), whole)
  {
    WholeTimesFractional(base, whole, remain, m);
  }

  lemma PartsNear(base: nat, whole: nat, remain: nat, m: nat)
    requires 2 * (BONE / 3) <= base <= BONE && remain < BONE && m >= MAX_ITERATIONS
    ensures PowerNear(RoundedParts(base, whole, remain), ExactParts(base, whole, remain, m), whole)
  {
    if remain == 0 {
      WholeOnly(base, whole, m);
    } else if whole == 0 {
      FractionalOnly(base, remain, m);
    } else {
      BothParts(base, whole, remain, m);
    }
  }

  lemma BpowParts(base: nat, exp: nat)
    requires 2 * (BONE / 3) <= base <= BONE
    ensures Bpow(base, exp) == Success(RoundedParts(base, exp / BONE, exp % BONE))
  {
    PartsOf(exp);
    WholePart(exp);
    PowerSeriesTheorem(base, exp % BONE, MAX_ITERATIONS);
  }

  /** For a base up to one, bpow is the exact power to half a unit a whole factor and the series error. */
  lemma PowerAccuracy(base: nat, exp: nat, m: nat)
    requires 2 * (BONE / 3) <= base <= BONE && m >= MAX_ITERATIONS
    ensures Bpow(base, exp).Success?
    ensures PowerNear(Bpow(base, exp).value, ExactPower(base, exp, m), exp / BONE)
  {
    BpowParts(base, exp);
    PartsNear(base, exp / BONE, exp % BONE, m);
  }

  /**
   Selling pays balanceOut * (1 - y ^ w), where y is the rounded balance ratio and w the rounded
   weight ratio, to within the error of the power carried through one more multiplication.
   */
  lemma SellFromRounded(p: Pair, amountIn: nat, m: nat)
    requires p.balanceIn > 0 && p.weightOut > 0 && p.swapFee < BONE && amountIn <= MaxAmount(p, SELL)
    requires m >= MAX_ITERATIONS
    ensures BaseOutGivenIn(p, amountIn).Success? && Bdiv(p.weightIn, p.weightOut).Success?
    ensures BaseOutGivenIn(p, amountIn).value >= 0 && Bdiv(p.weightIn, p.weightOut).value >= 0
    ensures var y, w := BaseOutGivenIn(p, amountIn).value, Bdiv(p.weightIn, p.weightOut).value;
            Near(CalcPrice(p, amountIn, SELL) as real, Times(p.balanceOut as real, 1.0 - ExactPower(y, w, m)),
                 Times(p.balanceOut as real, PowerError(w) / UNIT) + 0.5)
  {
    SellNeverThrows(p, amountIn);
    BmulShare(amountIn, BONE - p.swapFee);
    GuardedSellBase(p, amountIn);
    RatioNonNegative(p.weightIn, p.weightOut);
    var y, w := BaseOutGivenIn(p, amountIn).value, Bdiv(p.weightIn, p.weightOut).value;
    PowerAccuracy(y, w, m);
    GuardedPower(y, w);
    var foo := Bpow(y, w).value;
    PaidOut(p.balanceOut, foo, ExactPower(y, w, m), PowerError(w));
  }

  lemma PaidOut(balance: nat, foo: int, exact: real, e: real)
    requires 0 <= foo <= BONE && Near(foo as real, UNIT * exact, e)
    ensures Near(Bmul(balance, BONE - foo) as real, Times(balance as real, 1.0 - exact), Times(balance as real, e / UNIT) + 0.5)
  {
    var bar := BONE - foo;
    var b := balance as real;
    BmulBracket(balance, bar);
    assert Near(Bmul(balance, bar) as real, Times(b, Fraction(bar)), 0.5) by {
      assert b * bar as real == (balance * bar) as real;
    }
    ScaledNear(bar, 1.0 - exact, e / UNIT);
    TimesMono(Fraction(bar) - (1.0 - exact), e / UNIT, b);
    TimesMono(-(e / UNIT), Fraction(bar) - (1.0 - exact), b);
    DifferenceOfProducts(Fraction(bar), 1.0 - exact, b);
    SignedProduct(e / UNIT, b);
    TimesSymmetric(b, Fraction(bar));
    TimesSymmetric(b, 1.0 - exact);
    TimesSymmetric(b, e / UNIT);
  }
}
