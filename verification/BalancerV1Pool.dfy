/**
 The Balancer V1 swap formulas and the pool that quotes them: amounts beyond half of the incoming
 balance (selling) or a third of the outgoing one (buying) are priced at zero, and below that
 nothing throws.
 */
module BalancerV1Pool {
  import opened Wrappers
  import opened Sides
  import opened Truncating
  import opened BalancerV1Math
  import opened BalancerV1Series

  /** Balances, weights and fee as calcPrices reads them for one pair of tokens. */
  datatype Pair = Pair(balanceIn: nat, weightIn: nat, balanceOut: nat, weightOut: nat, swapFee: nat)

  /** Either bpow rejects the base or its series loop is known to stop. */
  predicate SeriesStops(base: int) {
    base < MIN_BPOW_BASE || base > MAX_BPOW_BASE || SERIES_MARGIN <= base <= 2 * BONE - SERIES_MARGIN
  }

  lemma WholePart(exp: int)
    requires exp >= 0
    ensures Btoi(exp) >= 0 && Bfloor(exp) <= exp && exp - Bfloor(exp) < BONE
  {
    FloorBracket(exp, BONE);
    NatQuotient(exp, BONE);
  }

  function Bpow(base: int, exp: int): Result<int, MathError>
    requires exp >= 0 && SeriesStops(base)
  {
    if base < MIN_BPOW_BASE then Failure(BaseTooLow)
    else if base > MAX_BPOW_BASE then Failure(BaseTooHigh)
    else
      WholePart(exp);
      var whole := Bfloor(exp);
      var remain :- Bsub(exp, whole);
      var wholePow := Powi(base, Btoi(whole));
      if remain == 0 then Success(wholePow)
      else
        var partialResult :- ApproxPower(base, remain);
        Success(Bmul(wholePow, partialResult))
  }

  function BaseOutGivenIn(p: Pair, amountIn: int): Result<int, MathError> {
    var fee :- Bsub(BONE, p.swapFee);
    var adjustedIn := Bmul(amountIn, fee);
    Bdiv(p.balanceIn, p.balanceIn + adjustedIn)
  }

  function CalcOutGivenIn(p: Pair, amountIn: int): Result<int, MathError>
    requires var y := BaseOutGivenIn(p, amountIn); y.Success? ==> SeriesStops(y.value)
  {
    var weightRatio :- Bdiv(p.weightIn, p.weightOut);
    var y :- BaseOutGivenIn(p, amountIn);
    RatioNonNegative(p.weightIn, p.weightOut);
    var foo :- Bpow(y, weightRatio);
    var bar :- Bsub(BONE, foo);
    Success(Bmul(p.balanceOut, bar))
  }

  function BaseInGivenOut(p: Pair, amountOut: int): Result<int, MathError> {
    var diff :- Bsub(p.balanceOut, amountOut);
    Bdiv(p.balanceOut, diff)
  }

  function CalcInGivenOut(p: Pair, amountOut: int): Result<int, MathError>
    requires var y := BaseInGivenOut(p, amountOut); y.Success? ==> SeriesStops(y.value)
  {
    var weightRatio :- Bdiv(p.weightOut, p.weightIn);
    var y :- BaseInGivenOut(p, amountOut);
    RatioNonNegative(p.weightOut, p.weightIn);
    var foo :- Bpow(y, weightRatio);
    var excess :- Bsub(foo, BONE);
    var fee :- Bsub(BONE, p.swapFee);
    Bdiv(Bmul(p.balanceIn, excess), fee)
  }

  function MaxAmount(p: Pair, side: SwapSide): int {
    if side == SELL then Quot(p.balanceIn, 2) else Quot(p.balanceOut, 3)
  }

  function Calculate(p: Pair, amount: nat, side: SwapSide): Result<int, MathError>
    requires amount <= MaxAmount(p, side)
  {
    GuardedBase(p, amount, side);
    if side == SELL then CalcOutGivenIn(p, amount) else CalcInGivenOut(p, amount)
  }

  /** One amount: beyond the guard, and when the formula throws, the price is zero. */
  function CalcPrice(p: Pair, amount: nat, side: SwapSide): int {
    if amount > MaxAmount(p, side) then 0
    else
      var r := Calculate(p, amount, side);
      if r.Success? then r.value else 0
  }

  // ---------------------------------------------------------------- the guard bounds the base

  lemma BdivRange(a: int, b: int, lo: int, hi: int)
    requires a >= 0 && b > 0 && lo * b <= a * BONE <= hi * b
    ensures Bdiv(a, b).Success? && lo <= Bdiv(a, b).value <= hi
  {
    var c := a * BONE + b / 2;
    FloorAtLeast(c, b, lo);
    FloorBelow(c, b, hi + 1);
  }

  lemma RatioNonNegative(a: nat, b: nat)
    requires Bdiv(a, b).Success?
    ensures Bdiv(a, b).value >= 0
  {
    FloorAtLeast(a * BONE + b / 2, b, 0);
  }

  lemma GuardedSellBase(p: Pair, amountIn: nat)
    requires amountIn <= MaxAmount(p, SELL) && BaseOutGivenIn(p, amountIn).Success?
    ensures 2 * (BONE / 3) <= BaseOutGivenIn(p, amountIn).value <= BONE
  {
    FloorBracket(p.balanceIn, 2);
    BmulShare(amountIn, BONE - p.swapFee);
    HalfAgain(p.balanceIn, Bmul(amountIn, BONE - p.swapFee));
  }

  lemma HalfAgain(a: nat, d: nat)
    requires a > 0 && 2 * d <= a
    ensures Bdiv(a, a + d).Success? && 2 * (BONE / 3) <= Bdiv(a, a + d).value <= BONE
  {
    BdivRange(a, a + d, 2 * (BONE / 3), BONE);
  }

  lemma GuardedBuyBase(p: Pair, amountOut: nat)
    requires amountOut <= MaxAmount(p, BUY) && BaseInGivenOut(p, amountOut).Success?
    ensures BONE <= BaseInGivenOut(p, amountOut).value <= BONE + BONE / 2
  {
    FloorBracket(p.balanceOut, 3);
    ThirdLess(p.balanceOut, amountOut);
  }

  lemma ThirdLess(a: nat, d: nat)
    requires a > 0 && 3 * d <= a
    ensures Bdiv(a, a - d).Success? && BONE <= Bdiv(a, a - d).value <= BONE + BONE / 2
  {
    BdivRange(a, a - d, BONE, BONE + BONE / 2);
  }

  /** The pool guard keeps every base it lets through within [2/3, 3/2]. */
  lemma GuardedBase(p: Pair, amount: nat, side: SwapSide)
    requires amount <= MaxAmount(p, side)
    ensures var y := if side == SELL then BaseOutGivenIn(p, amount) else BaseInGivenOut(p, amount);
            y.Success? ==> 2 * (BONE / 3) <= y.value <= BONE + BONE / 2 && SeriesStops(y.value)
  {
    if side == SELL && BaseOutGivenIn(p, amount).Success? {
      GuardedSellBase(p, amount);
    }
    if side == BUY && BaseInGivenOut(p, amount).Success? {
      GuardedBuyBase(p, amount);
    }
  }

  // ---------------------------------------------------------------- what the base is

  /** q is the quotient a / b in units, rounded half up: off by at most half of b. */
  predicate Rounds(q: int, a: int, b: int) {
    2 * (a * BONE) - b <= 2 * (q * b) <= 2 * (a * BONE) + b
  }

  lemma BdivRounds(a: nat, b: nat)
    requires b > 0
    ensures Bdiv(a, b).Success? && Rounds(Bdiv(a, b).value, a, b) && Bdiv(a, b).value >= 0
  {
    FloorBracket(a * BONE + b / 2, b);
    RatioNonNegative(a, b);
  }

  lemma ProductsApart(y: int, s: int, whole: int)
    ensures 2 * (y * whole) == 2 * (y * s) * BONE - y * (2 * (s * BONE) - 2 * whole)
  {
    assert y * (2 * (s * BONE)) == 2 * (y * s) * BONE;
  }

  /**
   The selling base is balanceIn / (balanceIn + amountIn * (1 - fee)), in units, to the two half-up
   roundings: of the amount less its fee, and of the quotient.
   */
  lemma SellRatioTheorem(p: Pair, amountIn: nat)
    requires p.balanceIn > 0 && p.swapFee <= BONE
    ensures BaseOutGivenIn(p, amountIn).Success? && BaseOutGivenIn(p, amountIn).value >= 0
    ensures var y, d := BaseOutGivenIn(p, amountIn).value, p.balanceIn * BONE + amountIn * (BONE - p.swapFee);
            && 2 * (y * d) <= 2 * (p.balanceIn * BONE * BONE) + d + BONE + y * BONE
            && 2 * (y * d) >= 2 * (p.balanceIn * BONE * BONE) - d - BONE - y * BONE
  {
    var less := Bmul(amountIn, BONE - p.swapFee);
    BmulBracket(amountIn, BONE - p.swapFee);
    BdivRounds(p.balanceIn, p.balanceIn + less);
    var y, a, s, whole := BaseOutGivenIn(p, amountIn).value, p.balanceIn, p.balanceIn + less,
                          p.balanceIn * BONE + amountIn * (BONE - p.swapFee);
    var off := 2 * (s * BONE) - 2 * whole;
    ProductsApart(y, s, whole);
    assert -(y * BONE) <= y * off <= y * BONE by {
      MulMono(-BONE, off, y);
      MulMono(off, BONE, y);
    }
    assert 2 * (a * BONE * BONE) - s * BONE <= 2 * (y * s) * BONE <= 2 * (a * BONE * BONE) + s * BONE by {
      MulMono(2 * (y * s), 2 * (a * BONE) + s, BONE);
      MulMono(2 * (a * BONE) - s, 2 * (y * s), BONE);
    }
  }

  /** The buying base is balanceOut / (balanceOut - amountOut), in units, rounded half up. */
  lemma BuyRatioTheorem(p: Pair, amountOut: nat)
    requires amountOut < p.balanceOut
    ensures BaseInGivenOut(p, amountOut).Success? && BaseInGivenOut(p, amountOut).value >= 0
    ensures var y, d := BaseInGivenOut(p, amountOut).value, p.balanceOut - amountOut;
            2 * (p.balanceOut * BONE) - d <= 2 * (y * d) <= 2 * (p.balanceOut * BONE) + d
  {
    BdivRounds(p.balanceOut, p.balanceOut - amountOut);
  }

  /** An amount is admitted up to half of the incoming balance, or a third of the outgoing one; beyond it the price is zero. */
  lemma GuardTheorem(p: Pair, amount: nat, side: SwapSide)
    ensures amount <= MaxAmount(p, side) <==> (if side == SELL then 2 * amount <= p.balanceIn else 3 * amount <= p.balanceOut)
    ensures amount > MaxAmount(p, side) ==> CalcPrice(p, amount, side) == 0
  {
  }

  // ---------------------------------------------------------------- nothing throws

  lemma {:induction false} PowiFromWithinOne(a: int, z: int, n: nat)
    requires 0 <= a <= BONE && 0 <= z <= BONE
    ensures 0 <= PowiFrom(a, z, n) <= BONE
    decreases n
  {
    if n != 0 {
      var a' := Bmul(a, a);
      BmulSide(a, a);
      BmulSide(z, a');
      PowiFromWithinOne(a', if n % 2 != 0 then Bmul(z, a') else z, n / 2);
    }
  }

  lemma {:induction false} PowiFromAtLeastOne(a: int, z: int, n: nat)
    requires a >= BONE && z >= BONE
    ensures PowiFrom(a, z, n) >= BONE
    decreases n
  {
    if n != 0 {
      var a' := Bmul(a, a);
      BmulSide(a, a);
      BmulSide(z, a');
      PowiFromAtLeastOne(a', if n % 2 != 0 then Bmul(z, a') else z, n / 2);
    }
  }

  /** Rounded multiplication stays on the side of one its factors are on. */
  lemma BmulSide(a: int, b: int)
    ensures 0 <= a <= BONE && 0 <= b <= BONE ==> 0 <= Bmul(a, b) <= BONE
    ensures a >= BONE && b >= BONE ==> Bmul(a, b) >= BONE
  {
    if 0 <= a <= BONE && 0 <= b <= BONE {
      BmulShare(a, b);
    } else if a >= BONE && b >= BONE {
      MulMono(BONE, a, b);
      FloorAtLeast(a * b + BONE / 2, BONE, BONE);
    }
  }

  /** Within the guard a power never throws and stays on its base's side of one. */
  lemma GuardedPower(base: int, exp: int)
    requires 2 * (BONE / 3) <= base <= BONE + BONE / 2 && exp >= 0
    ensures Bpow(base, exp).Success?
    ensures base <= BONE ==> 0 <= Bpow(base, exp).value <= BONE
    ensures base >= BONE ==> Bpow(base, exp).value >= BONE
  {
    WholePart(exp);
    var whole := Bfloor(exp);
    var remain := exp - whole;
    PowiSide(base, Btoi(whole));
    if remain != 0 {
      PowerSeriesTheorem(base, remain, MAX_ITERATIONS);
      BmulSide(Powi(base, Btoi(whole)), ApproxPower(base, remain).value);
    }
  }

  lemma PowiSide(base: int, n: nat)
    requires base >= 0
    ensures base <= BONE ==> 0 <= Powi(base, n) <= BONE
    ensures base >= BONE ==> Powi(base, n) >= BONE
  {
    var z := if n % 2 != 0 then base else BONE;
    if base <= BONE {
      PowiFromWithinOne(base, z, n / 2);
    }
    if base >= BONE {
      PowiFromAtLeastOne(base, z, n / 2);
    }
  }

  lemma SellNeverThrows(p: Pair, amountIn: nat)
    requires p.balanceIn > 0 && p.weightOut > 0 && p.swapFee < BONE && amountIn <= MaxAmount(p, SELL)
    ensures Calculate(p, amountIn, SELL).Success?
    ensures 0 <= Calculate(p, amountIn, SELL).value <= p.balanceOut
  {
    BmulShare(amountIn, BONE - p.swapFee);
    GuardedSellBase(p, amountIn);
    RatioNonNegative(p.weightIn, p.weightOut);
    var foo := Bpow(BaseOutGivenIn(p, amountIn).value, Bdiv(p.weightIn, p.weightOut).value);
    GuardedPower(BaseOutGivenIn(p, amountIn).value, Bdiv(p.weightIn, p.weightOut).value);
    BmulShare(p.balanceOut, BONE - foo.value);
  }

  lemma BuyNeverThrows(p: Pair, amountOut: nat)
    requires p.balanceOut > 0 && p.weightIn > 0 && p.swapFee < BONE && amountOut <= MaxAmount(p, BUY)
    ensures Calculate(p, amountOut, BUY).Success?
    ensures 0 <= Calculate(p, amountOut, BUY).value
  {
    FloorBracket(p.balanceOut, 3);
    GuardedBuyBase(p, amountOut);
    RatioNonNegative(p.weightOut, p.weightIn);
    var foo := Bpow(BaseInGivenOut(p, amountOut).value, Bdiv(p.weightOut, p.weightIn).value);
    GuardedPower(BaseInGivenOut(p, amountOut).value, Bdiv(p.weightOut, p.weightIn).value);
    BmulBracket(p.balanceIn, foo.value - BONE);
    RatioNonNegative(Bmul(p.balanceIn, foo.value - BONE), BONE - p.swapFee);
  }

  /**
   With positive balances and weights and a fee below one, no admitted amount makes the formulas
   throw; selling never pays out more than the pool holds, and buying never costs less than nothing.
   */
  lemma CalcPriceTheorem(p: Pair, amount: nat, side: SwapSide)
    requires p.balanceIn > 0 && p.balanceOut > 0 && p.weightIn > 0 && p.weightOut > 0 && p.swapFee < BONE
    requires amount <= MaxAmount(p, side)
    ensures Calculate(p, amount, side).Success?
    ensures CalcPrice(p, amount, side) == Calculate(p, amount, side).value
    ensures 0 <= CalcPrice(p, amount, side)
    ensures side == SELL ==> CalcPrice(p, amount, side) <= p.balanceOut
  {
    if side == SELL {
      SellNeverThrows(p, amount);
    } else {
      BuyNeverThrows(p, amount);
    }
  }
}
