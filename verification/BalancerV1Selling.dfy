/**
 What a sale pays, against the exact formula at the exact ratio of balances: the binomial series of any
 real base, and how little its value moves when the base is rounded.
 */
module BalancerV1Selling {
  import opened Wrappers
  import opened Sides
  import opened Truncating
  import opened RealErrors
  import opened RoundedPowers
  import opened BalancerV1Math
  import opened BalancerV1Series
  import opened BalancerV1Pool
  import opened BalancerV1Accuracy

  // ---------------------------------------------------------------- the series of a real base

  /** The n-th coefficient over the one before, for the exponent a / BONE: it lies within one. */
  ghost function CoefficientRatio(a: int, n: nat): real
    requires n >= 1
  {
    (a - (n - 1) * BONE) as real / (n * BONE) as real
  }

  /** The n-th term of (1 + d) ^ (a / BONE). */
  ghost function Term(a: int, d: real, n: nat): real {
    if n == 0 then 1.0 else Times(Term(a, d, n - 1), Times(CoefficientRatio(a, n), d))
  }

  ghost function Binomial(a: int, d: real, n: nat): real {
    if n == 0 then 1.0 else Binomial(a, d, n - 1) + Term(a, d, n)
  }

  lemma RatioIs(a: int, base: int, n: nat)
    requires n >= 1
    ensures Ratio(a, base, n) == Times(CoefficientRatio(a, n), Fraction(base) - 1.0)
  {
    var c, b, k := a - (n - 1) * BONE, base - BONE, n * BONE;
    assert n * BONE * BONE == k * BONE;
    ProductOfQuotients(c as real, k as real, b as real, UNIT);
    assert (c * b) as real == Times(c as real, b as real);
    assert Fraction(base) - 1.0 == b as real / UNIT;
  }

  lemma ProductOfQuotients(c: real, k: real, b: real, u: real)
    requires k > 0.0 && u > 0.0
    ensures Times(c, b) / (k * u) == Times(c / k, b / u)
  {
    var x, y, w := c / k, b / u, k * u;
    RealMulMono(0.0, k, u);
    assert x * k == c && y * u == b;
    assert Times(x, y) * w == Times(c, b);
  }

  lemma {:induction false} SeriesIs(a: int, base: int, n: nat)
    ensures ExactTerm(a, base, n) == Times(UNIT, Term(a, Fraction(base) - 1.0, n))
    ensures PartialSum(a, base, n) == Times(UNIT, Binomial(a, Fraction(base) - 1.0, n))
  {
    if n > 0 {
      var d := Fraction(base) - 1.0;
      SeriesIs(a, base, n - 1);
      RatioIs(a, base, n);
      TimesAssociative(UNIT, Term(a, d, n - 1), Times(CoefficientRatio(a, n), d));
      assert Times(UNIT, Binomial(a, d, n - 1) + Term(a, d, n)) == Times(UNIT, Binomial(a, d, n - 1)) + Times(UNIT, Term(a, d, n));
    }
  }

  lemma CoefficientWithinOne(a: int, n: nat)
    requires 0 <= a <= BONE && n >= 1
    ensures -1.0 <= CoefficientRatio(a, n) <= 1.0
  {
    var q, k := CoefficientRatio(a, n), (n * BONE) as real;
    assert Times(q, k) == (a - (n - 1) * BONE) as real;
    ByWeight(-1.0, q, k);
    ByWeight(q, 1.0, k);
  }

  // ---------------------------------------------------------------- how far a rounded base moves it

  /** n shares of d, each half the one before. */
  ghost function Halved(n: nat): real {
    if n == 0 then 1.0 else Halved(n - 1) / 2.0
  }

  lemma HalvedPositive(n: nat)
    ensures 0.0 < Halved(n) <= 1.0
  {
    if n > 0 {
      HalvedPositive(n - 1);
    }
  }

  lemma Factor(c: real, d: real)
    requires -1.0 <= c <= 1.0 && -0.5 <= d <= 0.5
    ensures -0.5 <= Times(c, d) <= 0.5
  {
    var s := Abs(d);
    TimesMono(c, 1.0, s);
    TimesMono(-1.0, c, s);
    SignedProduct(c, d);
  }

  lemma {:induction false} TermSize(a: int, d: real, n: nat)
    requires 0 <= a <= BONE && -0.5 <= d <= 0.5
    ensures Abs(Term(a, d, n)) <= Halved(n)
  {
    if n > 0 {
      TermSize(a, d, n - 1);
      CoefficientWithinOne(a, n);
      Factor(CoefficientRatio(a, n), d);
      HalvedProduct(Term(a, d, n - 1), Times(CoefficientRatio(a, n), d));
    }
  }

  lemma {:induction false} BinomialSize(a: int, d: real, n: nat)
    requires 0 <= a <= BONE && -0.5 <= d <= 0.5
    ensures Abs(Binomial(a, d, n)) <= 2.0 - Halved(n)
  {
    if n > 0 {
      BinomialSize(a, d, n - 1);
      TermSize(a, d, n);
    }
  }

  lemma ChangedFactor(c: real, d: real, e: real)
    requires -1.0 <= c <= 1.0 && -e <= d <= e
    ensures -e <= Times(c, d) <= e
  {
    var s := Abs(d);
    TimesMono(c, 1.0, s);
    TimesMono(-1.0, c, s);
    SignedProduct(c, d);
  }

  /** A factor of at most size times a change of at most e. */
  lemma SmallChange(t: real, size: real, d: real, e: real)
    requires Abs(t) <= size && -e <= d <= e
    ensures -Times(size, e) <= Times(t, d) <= Times(size, e)
  {
    var s, c := Abs(t), Abs(d);
    TimesMono(s, size, c);
    TimesMono(c, e, size);
    TimesSymmetric(c, size);
    TimesSymmetric(e, size);
    TimesMono(0.0, s, c);
    SignedProduct(t, d);
    SignedProduct(s, c);
  }

  /** One factor c * d more: t and t' move apart by half as much, and by the change of d. */
  lemma TermMoves(t: real, t': real, c: real, d: real, d': real, size: real, moved: real, e: real)
    requires -1.0 <= c <= 1.0 && -0.5 <= d <= 0.5 && Abs(t') <= size && Near(t, t', moved) && Near(d, d', e)
    ensures Near(Times(t, Times(c, d)), Times(t', Times(c, d')), moved / 2.0 + Times(size, e))
  {
    var x, y := Times(c, d), Times(c, d');
    Factor(c, d);
    HalvedProduct(t - t', x);
    DifferenceOfProducts(t, t', x);
    ChangedFactor(c, d - d', e);
    Difference(c, d, d');
    SmallChange(t', size, x - y, e);
    Difference(t', x, y);
  }

  lemma Difference(t: real, x: real, y: real)
    ensures Times(t, x) - Times(t, y) == Times(t, x - y)
  {
  }

  /** How far the n-th term moves when d moves by e. */
  ghost function Drift(n: nat, e: real): real {
    if n == 0 then 0.0 else Drift(n - 1, e) / 2.0 + Times(Halved(n - 1), e)
  }

  ghost function Drifts(n: nat, e: real): real {
    if n == 0 then 0.0 else Drifts(n - 1, e) + Drift(n, e)
  }

  lemma {:induction false} DriftsAddUp(n: nat, e: real)
    requires e >= 0.0
    ensures Drift(n, e) >= 0.0 && Drifts(n, e) + Drift(n, e) + 4.0 * Times(Halved(n), e) == 4.0 * e
    ensures Drifts(n, e) <= 4.0 * e
  {
    HalvedPositive(n);
    TimesMono(0.0, Halved(n), e);
    if n > 0 {
      DriftsAddUp(n - 1, e);
      HalvedPositive(n - 1);
      TimesMono(0.0, Halved(n - 1), e);
      assert Times(Halved(n), e) == Times(Halved(n - 1), e) / 2.0;
    }
  }

  lemma {:induction false} TermNear(a: int, d: real, d': real, e: real, n: nat)
    requires 0 <= a <= BONE && -0.5 <= d <= 0.5 && -0.5 <= d' <= 0.5 && Near(d, d', e) && e >= 0.0
    ensures Near(Term(a, d, n), Term(a, d', n), Drift(n, e))
  {
    if n > 0 {
      var m := n - 1;
      TermNear(a, d, d', e, m);
      TermSize(a, d', m);
      CoefficientWithinOne(a, n);
      TermMoves(Term(a, d, m), Term(a, d', m), CoefficientRatio(a, n), d, d', Halved(m), Drift(m, e), e);
    }
  }

  lemma {:induction false} BinomialNear(a: int, d: real, d': real, e: real, n: nat)
    requires 0 <= a <= BONE && -0.5 <= d <= 0.5 && -0.5 <= d' <= 0.5 && Near(d, d', e) && e >= 0.0
    ensures Near(Binomial(a, d, n), Binomial(a, d', n), Drifts(n, e))
  {
    if n > 0 {
      BinomialNear(a, d, d', e, n - 1);
      TermNear(a, d, d', e, n);
    }
  }

  /** The series moves by at most four times the change. */
  lemma BinomialMoves(a: int, d: real, d': real, e: real, n: nat)
    requires 0 <= a <= BONE && -0.5 <= d <= 0.5 && -0.5 <= d' <= 0.5 && Near(d, d', e) && e >= 0.0
    ensures Near(Binomial(a, d, n), Binomial(a, d', n), 4.0 * e)
  {
    BinomialNear(a, d, d', e, n);
    DriftsAddUp(n, e);
  }

  lemma OneMoreError(m: nat, e: real)
    ensures e + Times(m as real, e) + 0.0 == Times((m + 1) as real, e)
  {
  }

  lemma {:induction false} PowerMoves(x: real, y: real, e: real, n: nat)
    requires 0.0 <= x <= 1.0 && 0.0 <= y <= 1.0 && Near(x, y, e)
    ensures Near(Power(x, n), Power(y, n), Times(n as real, e))
  {
    if n > 0 {
      var m := n - 1;
      var u, v := Power(x, m), Power(y, m);
      PowerMoves(x, y, e, m);
      PowerOfFraction(x, m);
      PowerOfFraction(y, m);
      TwoErrors(x, u, y, v, Times(x, u), e, Times(m as real, e), 0.0);
      OneMoreError(m, e);
    }
  }

  // ---------------------------------------------------------------- the exact power and the exact price

  /** The fractional part of a power of x, by m terms of its series; a whole exponent leaves one. */
  ghost function Part(x: real, remain: int, m: nat): real {
    if remain == 0 then 1.0 else Binomial(remain, x - 1.0, m)
  }

  /** x ^ (exp / BONE) for any x, its fractional part by m terms of the binomial series. */
  ghost function RealPower(x: real, exp: nat, m: nat): real {
    Times(Power(x, exp / BONE), Part(x, exp % BONE, m))
  }

  lemma RealPowerIs(base: int, exp: nat, m: nat)
    ensures ExactPower(base, exp, m) == RealPower(Fraction(base), exp, m)
  {
    SeriesIs(exp % BONE, base, m);
  }

  /** Moving the base by e moves the power by at most 2 * whole + 4 times e. */
  ghost function PowerDrift(exp: nat, e: real): real {
    Times((2 * (exp / BONE) + 4) as real, e)
  }

  lemma ProductsMove(u: real, u': real, v: real, v': real, c: real, d: real)
    requires 0.0 <= u' <= 1.0 && Abs(v) <= 2.0 && Near(u, u', c) && Near(v, v', d)
    ensures Near(Times(u, v), Times(u', v'), 2.0 * c + d)
  {
    SmallChange(v, 2.0, u - u', c);
    TimesSymmetric(v, u - u');
    DifferenceOfProducts(u, u', v);
    SmallChange(u', 1.0, v - v', d);
    Difference(u', v, v');
  }

  lemma PartNear(x: real, y: real, e: real, remain: int, m: nat)
    requires 0.5 <= x <= 1.5 && 0.5 <= y <= 1.5 && Near(x, y, e) && e >= 0.0 && 0 <= remain <= BONE
    ensures Near(Part(x, remain, m), Part(y, remain, m), 4.0 * e) && Abs(Part(x, remain, m)) <= 2.0
  {
    if remain != 0 {
      HalvedPositive(m);
      BinomialSize(remain, x - 1.0, m);
      BinomialMoves(remain, x - 1.0, y - 1.0, e, m);
    }
  }

  lemma RealPowerMoves(x: real, y: real, e: real, exp: nat, m: nat)
    requires 0.5 <= x <= 1.0 && 0.5 <= y <= 1.0 && Near(x, y, e) && e >= 0.0
    ensures Near(RealPower(x, exp, m), RealPower(y, exp, m), PowerDrift(exp, e))
  {
    var whole, remain := exp / BONE, exp % BONE;
    PowerMoves(x, y, e, whole);
    PowerOfFraction(y, whole);
    PartNear(x, y, e, remain, m);
    ProductsMove(Power(x, whole), Power(y, whole), Part(x, remain, m), Part(y, remain, m), Times(whole as real, e), 4.0 * e);
    DriftOf(whole, e);
  }

  lemma DriftOf(whole: nat, e: real)
    ensures Times((2 * whole + 4) as real, e) == 2.0 * Times(whole as real, e) + 4.0 * e
  {
  }

  /** The exact base of a sale: balanceIn / (balanceIn + amountIn * (1 - fee)). */
  ghost function SellRatio(p: Pair, amountIn: nat): real
    requires p.balanceIn > 0 && p.swapFee <= BONE
  {
    SoldIntoPositive(p, amountIn);
    (p.balanceIn * BONE) as real / (p.balanceIn * BONE + amountIn * (BONE - p.swapFee)) as real
  }

  lemma SoldIntoPositive(p: Pair, amountIn: nat)
    requires p.balanceIn > 0 && p.swapFee <= BONE
    ensures 0 < p.balanceIn * BONE <= p.balanceIn * BONE + amountIn * (BONE - p.swapFee)
  {
    MulMono(0, amountIn, BONE - p.swapFee);
  }

  /** How far the rounded base is from the exact one, as a fraction: half a unit, and half a unit of the balance. */
  ghost function RatioError(balance: nat): real
    requires balance > 0
  {
    (0.5 + (BONE + 1) as real / (2 * balance) as real) / UNIT
  }

  lemma NearByProduct(f: real, x: real, r: real, d: real, off: real)
    requires d > 0.0 && -off <= Times(f, d) - Times(x, d) <= off && off <= Times(r, d)
    ensures Near(f, x, r)
  {
    DifferenceOfProducts(f, x, d);
    SignedProduct(r, d);
    ByWeight(f - x, r, d);
    ByWeight(-r, f - x, d);
  }

  lemma ExtraShare(k: real, a: real, d: real)
    requires a > 0.0 && k * (2.0 * a) == UNIT + 1.0 && d >= a * UNIT
    ensures 2.0 * Times(k, d) >= UNIT * (UNIT + 1.0)
  {
    if k < 0.0 {
      RealMulMono(k, 0.0, 2.0 * a);
    }
    TimesMono(a * UNIT, d, k);
    TimesSymmetric(k, d);
  }

  lemma ErrorTimes(a: nat, d: real)
    requires a > 0 && d >= a as real * UNIT
    ensures 0.5 * d / UNIT + (UNIT + 1.0) / 2.0 <= Times(RatioError(a), d)
  {
    var k := (BONE + 1) as real / (2 * a) as real;
    assert k * (2 * a) as real == (BONE + 1) as real;
    ExtraShare(k, a as real, d);
    assert Times(RatioError(a), d) == 0.5 * d / UNIT + Times(k, d) / UNIT;
  }

  lemma ProductOff(y: int, a: nat, d: nat)
    requires 0 <= y <= BONE
    requires 2 * (a * BONE * BONE) - d - BONE - y * BONE <= 2 * (y * d) <= 2 * (a * BONE * BONE) + d + BONE + y * BONE
    ensures var dr := d as real; var off := 0.5 * dr / UNIT + (UNIT + 1.0) / 2.0;
            -off <= Times(Fraction(y), dr) - (a * BONE) as real <= off
  {
    assert Times(Fraction(y), d as real) == (y * d) as real / UNIT by {
      assert (y * d) as real == y as real * d as real;
    }
  }

  lemma RatioNear(y: int, x: real, a: nat, d: nat)
    requires a > 0 && d >= a * BONE && 0 <= y <= BONE && Times(x, d as real) == (a * BONE) as real
    requires 2 * (a * BONE * BONE) - d - BONE - y * BONE <= 2 * (y * d) <= 2 * (a * BONE * BONE) + d + BONE + y * BONE
    ensures Near(Fraction(y), x, RatioError(a))
  {
    var dr := d as real;
    ProductOff(y, a, d);
    ErrorTimes(a, dr);
    NearByProduct(Fraction(y), x, RatioError(a), dr, 0.5 * dr / UNIT + (UNIT + 1.0) / 2.0);
  }

  lemma SellRatioTimes(p: Pair, amountIn: nat)
    requires p.balanceIn > 0 && p.swapFee <= BONE
    ensures Times(SellRatio(p, amountIn), (p.balanceIn * BONE + amountIn * (BONE - p.swapFee)) as real)
         == (p.balanceIn * BONE) as real
  {
    SoldIntoPositive(p, amountIn);
    var n, d := (p.balanceIn * BONE) as real, (p.balanceIn * BONE + amountIn * (BONE - p.swapFee)) as real;
    assert n / d * d == n;
  }

  lemma SellRatioRange(p: Pair, amountIn: nat)
    requires p.balanceIn > 0 && p.swapFee < BONE && amountIn <= MaxAmount(p, SELL)
    ensures 0.5 <= SellRatio(p, amountIn) <= 1.0
  {
    SoldIntoPositive(p, amountIn);
    FloorBracket(p.balanceIn, 2);
    MulMono(BONE - p.swapFee, BONE, amountIn);
    HalfToOne(SellRatio(p, amountIn), p.balanceIn * BONE, p.balanceIn * BONE + amountIn * (BONE - p.swapFee));
  }

  lemma HalfToOne(x: real, n: nat, d: nat)
    requires 0 < n <= d <= 2 * n && x == n as real / d as real
    ensures 0.5 <= x <= 1.0
  {
    var dr := d as real;
    assert x * dr == n as real;
    assert Times(x, dr) == n as real;
    ByWeight(0.5, x, dr);
    ByWeight(x, 1.0, dr);
  }

  /** The error of a sale, as a share of the outgoing balance: the power's, and the base's carried through it. */
  ghost function SellError(balanceIn: nat, w: nat): real
    requires balanceIn > 0
  {
    PowerError(w) / UNIT + PowerDrift(w, RatioError(balanceIn))
  }

  /**
   Selling pays balanceOut * (1 - x ^ w): x is the exact ratio of the incoming balance to itself with the
   amount less its fee, and w the ratio of the weights in units, rounded half up. The error is that of the
   power, of the rounded base, and half a unit.
   */
  lemma SellAccuracy(p: Pair, amountIn: nat, m: nat)
    requires p.balanceIn > 0 && p.weightOut > 0 && p.swapFee < BONE && amountIn <= MaxAmount(p, SELL)
    requires m >= MAX_ITERATIONS
    ensures Bdiv(p.weightIn, p.weightOut).Success? && Bdiv(p.weightIn, p.weightOut).value >= 0
    ensures var w, x := Bdiv(p.weightIn, p.weightOut).value, SellRatio(p, amountIn);
            && Rounds(w, p.weightIn, p.weightOut)
            && Near(CalcPrice(p, amountIn, SELL) as real, Times(p.balanceOut as real, 1.0 - RealPower(x, w, m)),
                    Times(p.balanceOut as real, SellError(p.balanceIn, w)) + 0.5)
  {
    BdivRounds(p.weightIn, p.weightOut);
    var w := Bdiv(p.weightIn, p.weightOut).value;
    SellFromRounded(p, amountIn, m);
    var y, x, e := BaseOutGivenIn(p, amountIn).value, SellRatio(p, amountIn), RatioError(p.balanceIn);
    SellRatioTheorem(p, amountIn);
    GuardedSellBase(p, amountIn);
    SoldIntoPositive(p, amountIn);
    SellRatioTimes(p, amountIn);
    RatioNear(y, x, p.balanceIn, p.balanceIn * BONE + amountIn * (BONE - p.swapFee));
    SellRatioRange(p, amountIn);
    RealPowerIs(y, w, m);
    RatioErrorPositive(p.balanceIn);
    RealPowerMoves(Fraction(y), x, e, w, m);
    PriceMoves(CalcPrice(p, amountIn, SELL) as real, p.balanceOut as real, RealPower(Fraction(y), w, m), RealPower(x, w, m),
               PowerError(w) / UNIT, PowerDrift(w, e));
  }

  lemma RatioErrorPositive(balance: nat)
    requires balance > 0
    ensures RatioError(balance) >= 0.0
  {
    var k, d := (BONE + 1) as real / (2 * balance) as real, (2 * balance) as real;
    assert k * d == (BONE + 1) as real;
    if k < 0.0 {
      RealMulMono(k, 0.0, d);
    }
  }

  lemma PriceMoves(price: real, b: real, u: real, v: real, c: real, d: real)
    requires b >= 0.0 && Near(price, Times(b, 1.0 - u), Times(b, c) + 0.5) && Near(u, v, d)
    ensures Near(price, Times(b, 1.0 - v), Times(b, c + d) + 0.5)
  {
    Difference(b, 1.0 - u, 1.0 - v);
    TimesMono(v - u, d, b);
    TimesMono(-d, v - u, b);
    TimesSymmetric(b, v - u);
    TimesSymmetric(b, d);
    SignedProduct(d, b);
    assert Times(b, c + d) == Times(b, c) + Times(b, d);
  }
}
