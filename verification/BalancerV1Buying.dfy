/**
 How close Balancer V1's rounded powers are to the exact ones for bases above one, the side the buying
 formula works on. There every rounding is small relative to the value, so the errors multiply.
 */
module BalancerV1Buying {
  import opened Wrappers
  import opened Sides
  import opened Truncating
  import opened RealErrors
  import opened RoundedPowers
  import opened BalancerV1Math
  import opened BalancerV1Series
  import opened BalancerV1Pool
  import opened BalancerV1Accuracy
  import opened BalancerV1Selling

  /** u is s after n roundings, each by at most half a unit of a value of at least one. */
  ghost predicate Relative(u: real, s: real, n: nat) {
    Times(Power(1.0 - HALF, n), s) <= u <= Times(Power(1.0 + HALF, n), s)
  }

  lemma {:induction false} PowerPositive(x: real, n: nat)
    requires x > 0.0
    ensures Power(x, n) > 0.0
  {
    if n > 0 {
      PowerPositive(x, n - 1);
      PositiveProduct(x, Power(x, n - 1));
    }
  }

  lemma PositiveProduct(x: real, y: real)
    requires x > 0.0 && y > 0.0
    ensures Times(x, y) > 0.0
  {
    RealMulMono(0.0, x, y);
  }

  lemma ProductOrder(a: real, b: real, c: real, d: real)
    requires 0.0 <= a <= b && 0.0 <= c <= d
    ensures 0.0 <= Times(a, c) <= Times(b, d)
  {
    TimesMono(0.0, a, c);
    TimesMono(a, b, c);
    TimesMono(c, d, b);
    TimesSymmetric(c, b);
    TimesSymmetric(d, b);
  }

  lemma Interchange(a: real, s: real, b: real, t: real)
    ensures Times(Times(a, s), Times(b, t)) == Times(Times(a, b), Times(s, t))
  {
    TimesAssociative(a, s, Times(b, t));
    TimesAssociative(s, b, t);
    TimesSymmetric(s, b);
    TimesAssociative(b, s, t);
    TimesAssociative(a, b, Times(s, t));
  }

  lemma RoundingsPositive(n: nat)
    ensures Power(1.0 - HALF, n) > 0.0 && Power(1.0 + HALF, n) > 0.0
  {
    PowerPositive(1.0 - HALF, n);
    PowerPositive(1.0 + HALF, n);
  }

  /** Products of rounded values: the numbers of roundings add up. */
  lemma RoundedTimes(u: real, s: real, m: nat, v: real, t: real, n: nat)
    requires Relative(u, s, m) && Relative(v, t, n) && s >= 0.0 && t >= 0.0
    ensures Relative(Times(u, v), Times(s, t), m + n)
  {
    var l, l', h, h' := Power(1.0 - HALF, m), Power(1.0 - HALF, n), Power(1.0 + HALF, m), Power(1.0 + HALF, n);
    RoundingsPositive(m);
    RoundingsPositive(n);
    ProductOrder(0.0, l, s, s);
    ProductOrder(0.0, l', t, t);
    ProductOrder(Times(l, s), u, Times(l', t), v);
    ProductOrder(u, Times(h, s), v, Times(h', t));
    Interchange(l, s, l', t);
    Interchange(h, s, h', t);
    PowerAdd(1.0 - HALF, m, n);
    PowerAdd(1.0 + HALF, m, n);
  }

  lemma RoundedAgain(w: real, u: real, s: real, n: nat)
    requires Relative(w, u, 1) && Relative(u, s, n)
    ensures Relative(w, s, n + 1)
  {
    var l, h := Power(1.0 - HALF, n), Power(1.0 + HALF, n);
    OneRounding();
    TimesMono(Times(l, s), u, 1.0 - HALF);
    TimesMono(u, Times(h, s), 1.0 + HALF);
    TimesSymmetric(1.0 - HALF, u);
    TimesSymmetric(1.0 + HALF, u);
    TimesSymmetric(1.0 - HALF, Times(l, s));
    TimesSymmetric(1.0 + HALF, Times(h, s));
    TimesAssociative(1.0 - HALF, l, s);
    TimesAssociative(1.0 + HALF, h, s);
    assert Power(1.0 - HALF, n + 1) == Times(1.0 - HALF, l);
    assert Power(1.0 + HALF, n + 1) == Times(1.0 + HALF, h);
  }

  lemma OneRounding()
    ensures Power(1.0 - HALF, 1) == 1.0 - HALF && Power(1.0 + HALF, 1) == 1.0 + HALF
  {
    assert Power(1.0 - HALF, 1) == Times(1.0 - HALF, Power(1.0 - HALF, 0));
    assert Power(1.0 + HALF, 1) == Times(1.0 + HALF, Power(1.0 + HALF, 0));
  }

  /** One more rounding is allowed than were made. */
  lemma RoundedMore(u: real, s: real, n: nat)
    requires Relative(u, s, n) && s >= 0.0 && u >= 0.0
    ensures Relative(u, s, n + 1)
  {
    OneRounding();
    TimesMono(-HALF, 0.0, u);
    TimesMono(0.0, HALF, u);
    assert Relative(u, u, 1);
    RoundedAgain(u, u, s, n);
  }

  lemma Unrounded(s: real)
    ensures Relative(s, s, 0)
  {
  }

  /** One rounded multiplication of values of at least one. */
  lemma BmulRounded(z: int, a: int)
    requires z >= BONE && a >= BONE
    ensures Bmul(z, a) >= BONE && Relative(Fraction(Bmul(z, a)), Times(Fraction(z), Fraction(a)), 1)
    ensures z == BONE ==> Bmul(z, a) == a
  {
    BmulSide(z, a);
    BmulBracket(z, a);
    NearestFraction(Bmul(z, a), z * a);
    FractionProduct(z, a);
    ProductOrder(1.0, Fraction(z), 1.0, Fraction(a));
    HalfOfOne(Fraction(Bmul(z, a)), Times(Fraction(z), Fraction(a)));
    if z == BONE {
      BmulOne(a);
    }
  }

  /** Half a unit is at most half a unit of any value of at least one. */
  lemma HalfOfOne(w: real, p: real)
    requires p >= 1.0 && -HALF <= w - p <= HALF
    ensures Relative(w, p, 1)
  {
    OneRounding();
    assert Times(1.0 - HALF, p) == p - HALF * p && Times(1.0 + HALF, p) == p + HALF * p;
  }

  // ---------------------------------------------------------------- whole powers

  /** z stands for the n-th power of x, n - 1 roundings away. */
  ghost predicate Grows(z: int, x: real, n: nat) {
    && z >= BONE
    && (n == 0 ==> z == BONE)
    && (n >= 1 ==> Relative(Fraction(z), Power(x, n), n - 1))
  }

  lemma PowersGrow(z: int, a: int, x: real, m: nat, n: nat)
    requires x >= 1.0 && n >= 1 && Grows(z, x, m) && Grows(a, x, n)
    ensures Grows(Bmul(z, a), x, m + n)
  {
    BmulRounded(z, a);
    if m > 0 {
      PowerPositive(x, m);
      PowerPositive(x, n);
      RoundedTimes(Fraction(z), Power(x, m), m - 1, Fraction(a), Power(x, n), n - 1);
      PowerAdd(x, m, n);
      RoundedAgain(Fraction(Bmul(z, a)), Times(Fraction(z), Fraction(a)), Power(x, m + n), m - 1 + (n - 1));
    }
  }

  lemma {:induction false} PowiFromGrows(x: real, a: int, z: int, c: nat, m: nat, n: nat, k: nat)
    requires x >= 1.0 && n >= 1 && k == m + 2 * (n * c) && Grows(z, x, m) && Grows(a, x, n)
    ensures Grows(PowiFrom(a, z, c), x, k)
    decreases c
  {
    if c != 0 {
      var a' := Bmul(a, a);
      PowersGrow(a, a, x, n, n);
      HalvedExponent(n, c);
      if c % 2 != 0 {
        PowersGrow(z, a', x, m, n + n);
        PowiFromGrows(x, a', Bmul(z, a'), c / 2, m + (n + n), n + n, k);
      } else {
        PowiFromGrows(x, a', z, c / 2, m, n + n, k);
      }
    }
  }

  /** The n-th power of a base from one upward is exact to n - 1 relative roundings. */
  lemma PowiGrowth(x: int, n: nat)
    requires x >= BONE
    ensures Grows(Powi(x, n), Fraction(x), n)
  {
    var f := Fraction(x);
    assert Power(f, 1) == Times(f, Power(f, 0)) == f;
    Unrounded(f);
    PowiFromGrows(f, x, if n % 2 != 0 then x else BONE, n / 2, n % 2, 1, n);
  }

  // ---------------------------------------------------------------- the whole power

  /** (base / BONE) ^ (remain / BONE) by m terms of its binomial series; a whole exponent leaves one. */
  ghost function FractionPart(base: int, remain: int, m: nat): real {
    if remain == 0 then 1.0 else FractionalPower(base, remain, m)
  }

  /** The error of that series, as a fraction. */
  ghost function FractionError(remain: int): real {
    if remain == 0 then 0.0 else SERIES_ERROR / UNIT
  }

  /** The least and the most a rounded power may be, as fractions. */
  ghost function PowerLow(base: int, exp: nat, m: nat): real {
    var whole, remain := exp / BONE, exp % BONE;
    Times(Power(1.0 - HALF, whole),
          Times(Power(Fraction(base), whole), FractionPart(base, remain, m) - FractionError(remain)))
  }

  ghost function PowerHigh(base: int, exp: nat, m: nat): real {
    var whole, remain := exp / BONE, exp % BONE;
    Times(Power(1.0 + HALF, whole),
          Times(Power(Fraction(base), whole), FractionPart(base, remain, m) + FractionError(remain)))
  }

  /** Multiplying a rounded whole power by a factor known up to an absolute error. */
  lemma TimesUncertain(u: real, s: real, n: nat, v: real, t: real, e: real)
    requires Relative(u, s, n) && s >= 0.0 && u >= 0.0 && 0.0 <= t - e <= v <= t + e
    ensures Times(Power(1.0 - HALF, n), Times(s, t - e)) <= Times(u, v) <= Times(Power(1.0 + HALF, n), Times(s, t + e))
  {
    var l, h := Power(1.0 - HALF, n), Power(1.0 + HALF, n);
    RoundingsPositive(n);
    ProductOrder(0.0, l, s, s);
    ProductOrder(Times(l, s), u, t - e, v);
    ProductOrder(u, Times(h, s), v, t + e);
    TimesAssociative(l, s, t - e);
    TimesAssociative(h, s, t + e);
  }

  lemma FractionAbove(base: int, remain: nat, m: nat)
    requires BONE <= base <= BONE + BONE / 2 && remain < BONE && m >= MAX_ITERATIONS
    ensures ApproxPower(base, remain).Success? && ApproxPower(base, remain).value >= BONE
    ensures InUnits(ApproxPower(base, remain).value, FractionalPower(base, remain, m), SERIES_ERROR)
  {
    PowerSeriesTheorem(base, remain, m);
    FromUnits(ApproxPower(base, remain).value, PartialSum(remain, base, m), SERIES_ERROR);
  }

  lemma BothPartsGrow(base: int, whole: nat, remain: nat, m: nat)
    requires BONE <= base <= BONE + BONE / 2 && whole >= 1 && 0 < remain < BONE && m >= MAX_ITERATIONS
    ensures ApproxPower(base, remain).Success?
    ensures var r := Fraction(Bmul(Powi(base, whole), ApproxPower(base, remain).value));
            var t, e := FractionalPower(base, remain, m), SERIES_ERROR / UNIT;
            && Times(Power(1.0 - HALF, whole), Times(Power(Fraction(base), whole), t - e)) <= r
            && r <= Times(Power(1.0 + HALF, whole), Times(Power(Fraction(base), whole), t + e))
  {
    PowiGrowth(base, whole);
    FractionAbove(base, remain, m);
    var z, a, x, t := Powi(base, whole), ApproxPower(base, remain).value, Fraction(base), FractionalPower(base, remain, m);
    BmulRounded(z, a);
    PowerPositive(x, whole);
    UnitFraction(a, t);
    UncertainGrows(Fraction(Bmul(z, a)), Fraction(z), Power(x, whole), whole - 1, Fraction(a), t, SERIES_ERROR / UNIT);
  }

  lemma UnitFraction(a: int, t: real)
    requires a >= BONE && InUnits(a, t, SERIES_ERROR)
    ensures var e := SERIES_ERROR / UNIT; 0.0 <= t - e <= Fraction(a) <= t + e
  {
  }

  lemma AgainLow(w: real, u: real, s: real, n: nat)
    requires Relative(w, u, 1) && Times(Power(1.0 - HALF, n), s) <= u
    ensures Times(Power(1.0 - HALF, n + 1), s) <= w
  {
    var l := Power(1.0 - HALF, n);
    OneRounding();
    TimesMono(Times(l, s), u, 1.0 - HALF);
    TimesSymmetric(1.0 - HALF, u);
    TimesSymmetric(1.0 - HALF, Times(l, s));
    TimesAssociative(1.0 - HALF, l, s);
    assert Power(1.0 - HALF, n + 1) == Times(1.0 - HALF, l);
  }

  lemma AgainHigh(w: real, u: real, s: real, n: nat)
    requires Relative(w, u, 1) && u <= Times(Power(1.0 + HALF, n), s)
    ensures w <= Times(Power(1.0 + HALF, n + 1), s)
  {
    var h := Power(1.0 + HALF, n);
    OneRounding();
    TimesMono(u, Times(h, s), 1.0 + HALF);
    TimesSymmetric(1.0 + HALF, u);
    TimesSymmetric(1.0 + HALF, Times(h, s));
    TimesAssociative(1.0 + HALF, h, s);
    assert Power(1.0 + HALF, n + 1) == Times(1.0 + HALF, h);
  }

  lemma UncertainGrows(r: real, u: real, s: real, n: nat, v: real, t: real, e: real)
    requires Relative(r, Times(u, v), 1) && Relative(u, s, n) && s >= 0.0 && u >= 0.0 && 0.0 <= t - e <= v <= t + e
    ensures Times(Power(1.0 - HALF, n + 1), Times(s, t - e)) <= r <= Times(Power(1.0 + HALF, n + 1), Times(s, t + e))
  {
    TimesUncertain(u, s, n, v, t, e);
    AgainLow(r, Times(u, v), Times(s, t - e), n);
    AgainHigh(r, Times(u, v), Times(s, t + e), n);
  }

  lemma WholeGrows(base: int, whole: nat)
    requires base >= BONE
    ensures Relative(Fraction(Powi(base, whole)), Times(Power(Fraction(base), whole), 1.0), whole)
  {
    PowiGrowth(base, whole);
    PowerPositive(Fraction(base), whole);
    TimesSymmetric(Power(Fraction(base), whole), 1.0);
    if whole > 0 {
      RoundedMore(Fraction(Powi(base, whole)), Power(Fraction(base), whole), whole - 1);
    }
  }

  lemma FractionGrows(base: int, remain: nat, m: nat)
    requires BONE <= base <= BONE + BONE / 2 && 0 < remain < BONE && m >= MAX_ITERATIONS
    ensures ApproxPower(base, remain).Success?
    ensures var r := Fraction(Bmul(Powi(base, 0), ApproxPower(base, remain).value));
            var t, e := FractionalPower(base, remain, m), SERIES_ERROR / UNIT;
            Times(1.0, Times(1.0, t - e)) <= r <= Times(1.0, Times(1.0, t + e))
  {
    FractionAbove(base, remain, m);
    UnitFraction(ApproxPower(base, remain).value, FractionalPower(base, remain, m));
    BmulRounded(BONE, ApproxPower(base, remain).value);
  }

  /** For a base from one to three halves, bpow lies within one relative rounding a factor and the series error. */
  lemma PowerGrowth(base: int, exp: nat, m: nat)
    requires BONE <= base <= BONE + BONE / 2 && m >= MAX_ITERATIONS
    ensures Bpow(base, exp).Success?
    ensures PowerLow(base, exp, m) <= Fraction(Bpow(base, exp).value) <= PowerHigh(base, exp, m)
  {
    GuardedPower(base, exp);
    PartsOf(exp);
    var whole, remain := exp / BONE, exp % BONE;
    if remain == 0 {
      WholeGrows(base, whole);
    } else if whole == 0 {
      FractionGrows(base, remain, m);
    } else {
      BothPartsGrow(base, whole, remain, m);
    }
  }

  // ---------------------------------------------------------------- the price

  /** The last two steps of the buying formula, for what the power is known to be. */
  lemma PaidIn(balance: nat, foo: int, low: real, high: real, d: nat)
    requires foo >= BONE && d > 0 && low <= Fraction(foo) <= high
    ensures Bmul(balance, foo - BONE) >= 0 && Bdiv(Bmul(balance, foo - BONE), d).Success?
    ensures var r, b, share := Bdiv(Bmul(balance, foo - BONE), d).value as real, balance as real, Fraction(d);
            && Times(b, low - 1.0) - 0.5 <= Times(r + 0.5, share)
            && Times(r - 0.5, share) <= Times(b, high - 1.0) + 0.5
  {
    var excess := foo - BONE;
    BmulBracket(balance, excess);
    var paid := Bmul(balance, excess);
    BdivRounds(paid, d);
    var r := Bdiv(paid, d).value;
    Quotient(paid, r, d);
    var b := balance as real;
    assert Near(paid as real, Times(b, Fraction(excess)), 0.5) by {
      assert b * excess as real == (balance * excess) as real;
    }
    TimesMono(low - 1.0, Fraction(excess), b);
    TimesMono(Fraction(excess), high - 1.0, b);
    TimesSymmetric(b, Fraction(excess));
    TimesSymmetric(b, low - 1.0);
    TimesSymmetric(b, high - 1.0);
  }

  lemma Quotient(paid: nat, r: int, d: nat)
    requires Rounds(r, paid, d)
    ensures Times(r as real - 0.5, Fraction(d)) <= paid as real <= Times(r as real + 0.5, Fraction(d))
  {
    assert (r * d) as real == r as real * d as real;
  }

  /** The buying formula, step by step: none of its steps fails. */
  lemma BuySteps(p: Pair, amountOut: nat)
    requires p.balanceOut > 0 && p.weightIn > 0 && p.swapFee < BONE && amountOut <= MaxAmount(p, BUY)
    ensures BaseInGivenOut(p, amountOut).Success? && Bdiv(p.weightOut, p.weightIn).Success?
    ensures var y, w := BaseInGivenOut(p, amountOut).value, Bdiv(p.weightOut, p.weightIn).value;
            && BONE <= y <= BONE + BONE / 2 && w >= 0 && Bpow(y, w).Success? && Bpow(y, w).value >= BONE
            && Bdiv(Bmul(p.balanceIn, Bpow(y, w).value - BONE), BONE - p.swapFee) == Success(CalcPrice(p, amountOut, BUY))
  {
    BuyNeverThrows(p, amountOut);
    FloorBracket(p.balanceOut, 3);
    GuardedBuyBase(p, amountOut);
    RatioNonNegative(p.weightOut, p.weightIn);
    GuardedPower(BaseInGivenOut(p, amountOut).value, Bdiv(p.weightOut, p.weightIn).value);
  }

  /** In terms of the rounded base y and the rounded weight ratio w. */
  lemma BuyFromRounded(p: Pair, amountOut: nat, m: nat)
    requires p.balanceOut > 0 && p.weightIn > 0 && p.swapFee < BONE && amountOut <= MaxAmount(p, BUY) && m >= MAX_ITERATIONS
    ensures BaseInGivenOut(p, amountOut).Success? && Bdiv(p.weightOut, p.weightIn).Success?
    ensures BONE <= BaseInGivenOut(p, amountOut).value <= BONE + BONE / 2 && Bdiv(p.weightOut, p.weightIn).value >= 0
    ensures var y, w := BaseInGivenOut(p, amountOut).value, Bdiv(p.weightOut, p.weightIn).value;
            var price, b, share := CalcPrice(p, amountOut, BUY) as real, p.balanceIn as real, Fraction(BONE - p.swapFee);
            && Times(b, PowerLow(y, w, m) - 1.0) - 0.5 <= Times(price + 0.5, share)
            && Times(price - 0.5, share) <= Times(b, PowerHigh(y, w, m) - 1.0) + 0.5
  {
    BuySteps(p, amountOut);
    var y, w := BaseInGivenOut(p, amountOut).value, Bdiv(p.weightOut, p.weightIn).value;
    PowerGrowth(y, w, m);
    PaidIn(p.balanceIn, Bpow(y, w).value, PowerLow(y, w, m), PowerHigh(y, w, m), BONE - p.swapFee);
  }

  // ---------------------------------------------------------------- the exact ratio

  /** The exact base of a purchase: balanceOut / (balanceOut - amountOut). */
  ghost function BuyRatio(p: Pair, amountOut: nat): real
    requires amountOut < p.balanceOut
  {
    p.balanceOut as real / (p.balanceOut - amountOut) as real
  }

  lemma RoundsNear(y: int, a: nat, d: nat)
    requires d > 0 && Rounds(y, a, d)
    ensures Near(Fraction(y), a as real / d as real, HALF)
  {
    var dr, x := d as real, a as real / d as real;
    assert Times(x, dr) == a as real;
    assert Times(Fraction(y), dr) == (y * d) as real / UNIT by {
      assert (y * d) as real == y as real * dr;
    }
    NearByProduct(Fraction(y), x, HALF, dr, HALF * dr);
  }

  lemma OneToThreeHalves(x: real, n: nat, d: nat)
    requires 0 < d <= n && 2 * n <= 3 * d && x == n as real / d as real
    ensures 1.0 <= x <= 1.5
  {
    var dr := d as real;
    assert Times(x, dr) == n as real;
    ByWeight(1.0, x, dr);
    ByWeight(x, 1.5, dr);
  }

  lemma BuyBaseNear(p: Pair, amountOut: nat)
    requires p.balanceOut > 0 && amountOut <= MaxAmount(p, BUY)
    ensures amountOut < p.balanceOut && BaseInGivenOut(p, amountOut).Success?
    ensures Near(Fraction(BaseInGivenOut(p, amountOut).value), BuyRatio(p, amountOut), HALF)
    ensures 1.0 <= BuyRatio(p, amountOut) <= 1.5
  {
    FloorBracket(p.balanceOut, 3);
    BdivRounds(p.balanceOut, p.balanceOut - amountOut);
    RoundsNear(BaseInGivenOut(p, amountOut).value, p.balanceOut, p.balanceOut - amountOut);
    OneToThreeHalves(BuyRatio(p, amountOut), p.balanceOut, p.balanceOut - amountOut);
  }

  lemma {:induction false} PowerRelative(y: real, x: real, n: nat)
    requires Relative(y, x, 1) && x > 0.0
    ensures Relative(Power(y, n), Power(x, n), n)
  {
    if n == 0 {
      Unrounded(1.0);
    } else {
      PowerRelative(y, x, n - 1);
      PowerPositive(x, n - 1);
      RoundedTimes(y, x, 1, Power(y, n - 1), Power(x, n - 1), n - 1);
    }
  }

  /** The error of the series at the rounded base, against the series at the exact one. */
  ghost function MovedError(remain: int): real {
    FractionError(remain) + if remain == 0 then 0.0 else 4.0 * HALF
  }

  /** The least and the most the rounded power of the rounded base may be, in terms of the exact base. */
  ghost function ExactLow(x: real, exp: nat, m: nat): real {
    var whole, remain := exp / BONE, exp % BONE;
    Times(Power(1.0 - HALF, whole), Times(Times(Power(1.0 - HALF, whole), Power(x, whole)), Part(x, remain, m) - MovedError(remain)))
  }

  ghost function ExactHigh(x: real, exp: nat, m: nat): real {
    var whole, remain := exp / BONE, exp % BONE;
    Times(Power(1.0 + HALF, whole), Times(Times(Power(1.0 + HALF, whole), Power(x, whole)), Part(x, remain, m) + MovedError(remain)))
  }

  lemma PartMoves(y: int, x: real, remain: nat, m: nat)
    requires BONE <= y <= BONE + BONE / 2 && 1.0 <= x <= 1.5 && Near(Fraction(y), x, HALF) && remain < BONE && m >= MAX_ITERATIONS
    ensures Part(x, remain, m) - MovedError(remain) <= FractionPart(y, remain, m) - FractionError(remain)
    ensures FractionPart(y, remain, m) + FractionError(remain) <= Part(x, remain, m) + MovedError(remain)
    ensures 0.0 <= Part(x, remain, m) - MovedError(remain)
  {
    if remain != 0 {
      SeriesIs(remain, y, m);
      BinomialMoves(remain, Fraction(y) - 1.0, x - 1.0, HALF, m);
      FractionAbove(y, remain, m);
    }
  }

  lemma PowerMovesOut(y: int, x: real, exp: nat, m: nat)
    requires BONE <= y <= BONE + BONE / 2 && 1.0 <= x <= 1.5 && Near(Fraction(y), x, HALF) && m >= MAX_ITERATIONS
    ensures ExactLow(x, exp, m) <= PowerLow(y, exp, m) && PowerHigh(y, exp, m) <= ExactHigh(x, exp, m)
  {
    var whole, remain := exp / BONE, exp % BONE;
    HalfOfOne(Fraction(y), x);
    PowerRelative(Fraction(y), x, whole);
    PartMoves(y, x, remain, m);
    PowerPositive(x, whole);
    RoundingsPositive(whole);
    var l, h, p, q := Power(1.0 - HALF, whole), Power(1.0 + HALF, whole), Power(Fraction(y), whole), Power(x, whole);
    var t, t', e, e' := FractionPart(y, remain, m), Part(x, remain, m), FractionError(remain), MovedError(remain);
    ProductOrder(0.0, l, q, q);
    ProductOrder(Times(l, q), p, t' - e', t - e);
    ProductOrder(l, l, Times(Times(l, q), t' - e'), Times(p, t - e));
    ProductOrder(p, Times(h, q), t + e, t' + e');
    ProductOrder(h, h, Times(p, t + e), Times(Times(h, q), t' + e'));
  }

  /**
   Buying costs balanceIn * (x ^ w - 1) / (1 - fee): x is the exact ratio of the outgoing balance to what
   is left of it, and w the ratio of the weights in units, rounded half up. The price times 1 - fee lies
   between the values for the least and the most the rounded power may be, half a unit for each of the last
   two steps.
   */
  lemma BuyAccuracy(p: Pair, amountOut: nat, m: nat)
    requires p.balanceOut > 0 && p.weightIn > 0 && p.swapFee < BONE && amountOut <= MaxAmount(p, BUY) && m >= MAX_ITERATIONS
    ensures amountOut < p.balanceOut && Bdiv(p.weightOut, p.weightIn).Success? && Bdiv(p.weightOut, p.weightIn).value >= 0
    ensures var w, x := Bdiv(p.weightOut, p.weightIn).value, BuyRatio(p, amountOut);
            var price, b, share := CalcPrice(p, amountOut, BUY) as real, p.balanceIn as real, Fraction(BONE - p.swapFee);
            && Rounds(w, p.weightOut, p.weightIn)
            && Times(b, ExactLow(x, w, m) - 1.0) - 0.5 <= Times(price + 0.5, share)
            && Times(price - 0.5, share) <= Times(b, ExactHigh(x, w, m) - 1.0) + 0.5
  {
    BuyFromRounded(p, amountOut, m);
    BuyBaseNear(p, amountOut);
    BdivRounds(p.weightOut, p.weightIn);
    var y, w, x := BaseInGivenOut(p, amountOut).value, Bdiv(p.weightOut, p.weightIn).value, BuyRatio(p, amountOut);
    PowerMovesOut(y, x, w, m);
    var b := p.balanceIn as real;
    TimesMono(ExactLow(x, w, m) - 1.0, PowerLow(y, w, m) - 1.0, b);
    TimesMono(PowerHigh(y, w, m) - 1.0, ExactHigh(x, w, m) - 1.0, b);
    TimesSymmetric(b, ExactLow(x, w, m) - 1.0);
    TimesSymmetric(b, PowerLow(y, w, m) - 1.0);
    TimesSymmetric(b, PowerHigh(y, w, m) - 1.0);
    TimesSymmetric(b, ExactHigh(x, w, m) - 1.0);
  }
}
