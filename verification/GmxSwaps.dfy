/**
 GMX swap quotes: the incoming amount at its minimum price, the outgoing one at its maximum price, and
 the higher of two dynamic fees. Swapping there and back never returns more than was put in.
 */
module GmxSwaps {
  import opened Wrappers
  import opened Truncating
  import opened GmxPrices

  /** What the vault knows of one token for its fees. */
  datatype FeeState = FeeState(usdgAmount: nat, targetUsdgAmount: nat)

  function FeeBasisPoints(hasDynamicFees: bool, s: FeeState, usdgDelta: nat, feeBps: int, taxBps: int, increment: bool): int {
    if !hasDynamicFees then feeBps
    else
      var nextAmount := if increment then s.usdgAmount + usdgDelta
                        else if usdgDelta > s.usdgAmount then 0 else s.usdgAmount - usdgDelta;
      if s.targetUsdgAmount == 0 then feeBps
      else
        var initialDiff := Magnitude(s.usdgAmount - s.targetUsdgAmount);
        var nextDiff := Magnitude(nextAmount - s.targetUsdgAmount);
        if nextDiff < initialDiff then
          var rebateBps := Quot(taxBps * initialDiff, s.targetUsdgAmount);
          if rebateBps > feeBps then 0 else feeBps - rebateBps
        else
          var averageDiff := Quot(initialDiff + nextDiff, 2);
          var capped := if averageDiff > s.targetUsdgAmount then s.targetUsdgAmount else averageDiff;
          feeBps + Quot(taxBps * capped, s.targetUsdgAmount)
  }

  /** A share of a tax: never negative, and at most the tax while the difference is at most the target. */
  lemma TaxShare(tax: nat, diff: nat, target: nat)
    requires target > 0
    ensures 0 <= Quot(tax * diff, target)
    ensures diff <= target ==> Quot(tax * diff, target) <= tax
  {
    MulMono(0, tax, diff);
    FloorAtLeast(tax * diff, target, 0);
    if diff <= target {
      MulMono(diff, target, tax);
      FloorBelow(tax * diff, target, tax + 1);
    }
  }

  /** A fee stays between nothing and the base fee with the whole tax on top. */
  lemma FeeTheorem(hasDynamicFees: bool, s: FeeState, usdgDelta: nat, feeBps: nat, taxBps: nat, increment: bool)
    ensures 0 <= FeeBasisPoints(hasDynamicFees, s, usdgDelta, feeBps, taxBps, increment) <= feeBps + taxBps
  {
    if hasDynamicFees && s.targetUsdgAmount > 0 {
      var initialDiff := Magnitude(s.usdgAmount - s.targetUsdgAmount);
      var nextAmount := if increment then s.usdgAmount + usdgDelta
                        else if usdgDelta > s.usdgAmount then 0 else s.usdgAmount - usdgDelta;
      var averageDiff := Quot(initialDiff + Magnitude(nextAmount - s.targetUsdgAmount), 2);
      TaxShare(taxBps, initialDiff, s.targetUsdgAmount);
      TaxShare(taxBps, if averageDiff > s.targetUsdgAmount then s.targetUsdgAmount else averageDiff, s.targetUsdgAmount);
    }
  }

  /** The vault's amount after the swap. */
  function NextAmount(s: FeeState, usdgDelta: nat, increment: bool): nat {
    if increment then s.usdgAmount + usdgDelta else if usdgDelta > s.usdgAmount then 0 else s.usdgAmount - usdgDelta
  }

  /** How far an amount is from the target. */
  function Gap(amount: nat, s: FeeState): nat {
    if amount > s.targetUsdgAmount then amount - s.targetUsdgAmount else s.targetUsdgAmount - amount
  }

  /** A fee for a swap that moves its token towards the target: the base less a rebate, and never less than nothing. */
  predicate Rebated(fee: int, base: nat, tax: nat, first: nat, target: nat) {
    && 0 <= fee <= base
    && (fee > 0 ==> FloorOf(base - fee, tax * first, target))
    && (fee == 0 ==> base * target <= tax * first)
  }

  /** A fee for any other swap: the base and a share of the tax, all of it from a mean distance of the target on. */
  predicate Taxed(fee: int, base: nat, tax: nat, first: nat, next: nat, target: nat) {
    if first + next >= 2 * target then fee == base + tax
    else base <= fee <= base + tax && FloorOf(fee - base, tax * ((first + next) / 2), target)
  }

  /**
   What a fee is. Without dynamic fees or a target it is the base. A swap that moves its token towards the
   target gets a rebate, the tax times the distance it starts from, as a share of the target, and never pays
   less than nothing. Any other swap pays that share of the mean distance on top, up to the whole tax.
   */
  lemma FeeShapeTheorem(hasDynamicFees: bool, s: FeeState, usdgDelta: nat, feeBps: nat, taxBps: nat, increment: bool)
    ensures var fee, first, next, target :=
              FeeBasisPoints(hasDynamicFees, s, usdgDelta, feeBps, taxBps, increment),
              Gap(s.usdgAmount, s), Gap(NextAmount(s, usdgDelta, increment), s), s.targetUsdgAmount;
            if !hasDynamicFees || target == 0 then fee == feeBps
            else if next < first then Rebated(fee, feeBps, taxBps, first, target)
            else Taxed(fee, feeBps, taxBps, first, next, target)
  {
    var target := s.targetUsdgAmount;
    if hasDynamicFees && target > 0 {
      var first, next := Gap(s.usdgAmount, s), Gap(NextAmount(s, usdgDelta, increment), s);
      if next < first {
        Rebate(feeBps, taxBps, first, target);
      } else {
        Surcharge(feeBps, taxBps, first, next, target);
      }
    }
  }

  lemma ShareIs(tax: nat, diff: nat, target: nat)
    requires target > 0
    ensures FloorOf(Quot(tax * diff, target), tax * diff, target) && 0 <= Quot(tax * diff, target)
    ensures diff <= target ==> Quot(tax * diff, target) <= tax
    ensures diff == target ==> Quot(tax * diff, target) == tax
  {
    TaxShare(tax, diff, target);
    MulMono(0, tax, diff);
    FloorBracket(tax * diff, target);
    if diff == target {
      FloorAtLeast(tax * diff, target, tax);
    }
  }

  lemma Rebate(base: nat, tax: nat, first: nat, target: nat)
    requires target > 0
    ensures var r := Quot(tax * first, target);
            Rebated(if r > base then 0 else base - r, base, tax, first, target)
  {
    ShareIs(tax, first, target);
    var r := Quot(tax * first, target);
    if r >= base {
      MulMono(base, r, target);
    }
  }

  lemma Surcharge(base: nat, tax: nat, first: nat, next: nat, target: nat)
    requires target > 0
    ensures var average := Quot(first + next, 2);
            Taxed(base + Quot(tax * (if average > target then target else average), target), base, tax, first, next, target)
  {
    var average := (first + next) / 2;
    ShareIs(tax, if average > target then target else average, target);
  }

  // ---------------------------------------------------------------- quotes

  /** One token as a quote sees it: its price range, its unit and its fee state. */
  datatype Asset = Asset(minPrice: int, maxPrice: int, decimals: nat, isStable: bool, fees: FeeState)

  datatype FeeConfig = FeeConfig(hasDynamicFees: bool, stableSwapFeeBasisPoints: nat, swapFeeBasisPoints: nat,
                                 stableTaxBasisPoints: nat, taxBasisPoints: nat)

  const USDG_DECIMALS: nat := 18

  function UsdgAmount(a: Asset, amountIn: int): int {
    Pow10Positive(a.decimals);
    Quot(Quot(amountIn * a.minPrice, PRICE_PRECISION) * Pow10(USDG_DECIMALS), Pow10(a.decimals))
  }

  function SwapFee(c: FeeConfig, tokenIn: Asset, tokenOut: Asset, amountIn: nat): int
    requires tokenIn.minPrice >= 0
  {
    UsdgNonNegative(tokenIn, amountIn);
    var stable := tokenIn.isStable && tokenOut.isStable;
    var baseBps := if stable then c.stableSwapFeeBasisPoints else c.swapFeeBasisPoints;
    var taxBps := if stable then c.stableTaxBasisPoints else c.taxBasisPoints;
    var usdg := UsdgAmount(tokenIn, amountIn);
    var fee0 := FeeBasisPoints(c.hasDynamicFees, tokenIn.fees, usdg, baseBps, taxBps, true);
    var fee1 := FeeBasisPoints(c.hasDynamicFees, tokenOut.fees, usdg, baseBps, taxBps, false);
    if fee0 > fee1 then fee0 else fee1
  }

  lemma UsdgNonNegative(a: Asset, amountIn: nat)
    requires a.minPrice >= 0
    ensures UsdgAmount(a, amountIn) >= 0
  {
    Pow10Positive(a.decimals);
    Pow10Positive(USDG_DECIMALS);
    MulMono(0, amountIn, a.minPrice);
    NatQuotient(amountIn * a.minPrice, PRICE_PRECISION);
    var u := amountIn * a.minPrice / PRICE_PRECISION;
    MulMono(0, u, Pow10(USDG_DECIMALS));
    NatQuotient(u * Pow10(USDG_DECIMALS), Pow10(a.decimals));
  }

  /**
   The fee charged: the base and tax for two stable tokens or for others, at least what either of the two
   tokens asks for, and no more than one of them does.
   */
  lemma ChargedFeeTheorem(c: FeeConfig, tokenIn: Asset, tokenOut: Asset, amountIn: nat)
    requires tokenIn.minPrice >= 0
    ensures UsdgAmount(tokenIn, amountIn) >= 0
    ensures var fee, u, stable := SwapFee(c, tokenIn, tokenOut, amountIn), UsdgAmount(tokenIn, amountIn),
                                  tokenIn.isStable && tokenOut.isStable;
            var base := if stable then c.stableSwapFeeBasisPoints else c.swapFeeBasisPoints;
            var tax := if stable then c.stableTaxBasisPoints else c.taxBasisPoints;
            var feeIn := FeeBasisPoints(c.hasDynamicFees, tokenIn.fees, u, base, tax, true);
            var feeOut := FeeBasisPoints(c.hasDynamicFees, tokenOut.fees, u, base, tax, false);
            feeIn <= fee && feeOut <= fee && (fee == feeIn || fee == feeOut)
  {
    UsdgNonNegative(tokenIn, amountIn);
  }

  /** The amount in dollars with 18 decimals, to its two roundings down. */
  lemma UsdgTheorem(a: Asset, amountIn: nat)
    requires a.minPrice >= 0
    ensures var u, unit := UsdgAmount(a, amountIn), Pow10(a.decimals);
            && u * (unit * PRICE_PRECISION) <= amountIn * a.minPrice * Pow10(18)
            && amountIn * a.minPrice * Pow10(18) < (u + 1) * (unit * PRICE_PRECISION) + PRICE_PRECISION * Pow10(18)
  {
    Pow10Positive(a.decimals);
    Pow10Positive(18);
    MulMono(0, amountIn, a.minPrice);
    UsdgNonNegative(a, amountIn);
    TwoFloorsBetween(amountIn * a.minPrice, PRICE_PRECISION, Pow10(18), Pow10(a.decimals));
  }

  /** Dividing by d, multiplying by u and dividing by v, each rounded down, against the exact fraction. */
  lemma TwoFloorsBetween(n: nat, d: nat, u: nat, v: nat)
    requires d > 0 && u > 0 && v > 0
    ensures var q := Quot(Quot(n, d) * u, v);
            q >= 0 && q * (v * d) <= n * u < (q + 1) * (v * d) + d * u
  {
    FloorTimes(n, d);
    var a := n / d;
    MulMono(0, a, u);
    FloorTimes(a * u, v);
    FloorBracket(n, d);
    FloorBracket(a * u, v);
    TwoFloors(a, d, n, a * u / v, v, u);
    var q := a * u / v;
    assert n * u < (a + 1) * d * u by {
      StrictProduct(n, (a + 1) * d, u);
    }
    StrictProduct(a * u, (q + 1) * v, d);
    SpreadOut(a, d, u, q, v);
  }

  lemma StrictProduct(a: int, b: int, c: nat)
    requires a < b && c > 0
    ensures a * c < b * c
  {
    MulMono(a + 1, b, c);
  }

  lemma SpreadOut(a: int, d: int, u: int, q: int, v: int)
    ensures (a + 1) * d * u == a * u * d + d * u && (q + 1) * v * d == (q + 1) * (v * d)
  {
  }

  /** The amount paid out for one incoming amount; beyond the reader's maximum it is zero. */
  function AmountOut(c: FeeConfig, tokenIn: Asset, tokenOut: Asset, maxAmountIn: int, amountIn: nat): Result<int, PriceError>
    requires tokenIn.minPrice >= 0
  {
    if amountIn > maxAmountIn then Success(0)
    else if tokenOut.maxPrice == 0 then Failure(DivisionByZero)
    else
      Pow10Positive(tokenIn.decimals);
      var amountOut := Quot(amountIn * tokenIn.minPrice, tokenOut.maxPrice);
      var scaled := Quot(amountOut * Pow10(tokenOut.decimals), Pow10(tokenIn.decimals));
      Success(Scaled(scaled, BASIS_POINTS_DIVISOR - SwapFee(c, tokenIn, tokenOut, amountIn)))
  }

  // ---------------------------------------------------------------- no free lunch

  /** No fee with its tax takes more than everything. */
  predicate ValidFees(c: FeeConfig) {
    && c.stableSwapFeeBasisPoints + c.stableTaxBasisPoints <= BASIS_POINTS_DIVISOR
    && c.swapFeeBasisPoints + c.taxBasisPoints <= BASIS_POINTS_DIVISOR
  }

  predicate ValidAsset(a: Asset) {
    0 <= a.minPrice <= a.maxPrice && 0 < a.maxPrice
  }

  lemma SwapFeeBounds(c: FeeConfig, tokenIn: Asset, tokenOut: Asset, amountIn: nat)
    requires ValidFees(c) && tokenIn.minPrice >= 0
    ensures 0 <= SwapFee(c, tokenIn, tokenOut, amountIn) <= BASIS_POINTS_DIVISOR
  {
    UsdgNonNegative(tokenIn, amountIn);
    var stable := tokenIn.isStable && tokenOut.isStable;
    var baseBps := if stable then c.stableSwapFeeBasisPoints else c.swapFeeBasisPoints;
    var taxBps := if stable then c.stableTaxBasisPoints else c.taxBasisPoints;
    var usdg := UsdgAmount(tokenIn, amountIn);
    FeeTheorem(c.hasDynamicFees, tokenIn.fees, usdg, baseBps, taxBps, true);
    FeeTheorem(c.hasDynamicFees, tokenOut.fees, usdg, baseBps, taxBps, false);
  }

  /** Two quotients rounded down one after the other stay below the exact fraction. */
  lemma TwoFloors(a: nat, d: nat, m: nat, b: nat, v: nat, u: nat)
    requires a * d <= m && b * v <= a * u
    ensures b * (v * d) <= m * u
  {
    MulMono(b * v, a * u, d);
    MulMono(a * d, m, u);
    Reassociate(b, v, d);
    Reassociate(a, u, d);
    Reassociate(a, d, u);
  }

  lemma Reassociate(a: int, b: int, c: int)
    ensures a * b * c == a * (b * c) == a * (c * b)
  {
  }

  /** Rounding down at every step: the fraction x * p * u * g over d * v * t is never exceeded. */
  lemma ThreeFloors(x: nat, p: nat, d: nat, u: nat, v: nat, g: nat, t: nat)
    requires d > 0 && v > 0 && t > 0
    ensures var y := x * p / d * u / v * g / t;
            0 <= y && y * (t * (v * d)) <= x * p * u * g
  {
    MulMono(0, x, p);
    FloorTimes(x * p, d);
    var a := x * p / d;
    MulMono(0, a, u);
    FloorTimes(a * u, v);
    var b := a * u / v;
    MulMono(0, b, g);
    FloorTimes(b * g, t);
    TwoFloors(a, d, x * p, b, v, u);
    MulMono(0, v, d);
    MulMono(0, x * p, u);
    TwoFloors(b, v * d, x * p * u, b * g / t, t, g);
  }

  lemma FloorTimes(n: nat, d: nat)
    requires d > 0
    ensures 0 <= n / d && n / d * d <= n
  {
    FloorBracket(n, d);
    FloorAtLeast(n, d, 0);
  }

  /** One leg pays out at most the input at the quoted prices, less the fee, in the other unit. */
  lemma LegBound(c: FeeConfig, tokenIn: Asset, tokenOut: Asset, maxAmountIn: int, amountIn: nat)
    requires ValidFees(c) && ValidAsset(tokenIn) && ValidAsset(tokenOut)
    ensures AmountOut(c, tokenIn, tokenOut, maxAmountIn, amountIn).Success?
    ensures var y, g := AmountOut(c, tokenIn, tokenOut, maxAmountIn, amountIn).value,
                        BASIS_POINTS_DIVISOR - SwapFee(c, tokenIn, tokenOut, amountIn);
            && 0 <= y && 0 <= g <= BASIS_POINTS_DIVISOR
            && y * (BASIS_POINTS_DIVISOR * (Pow10(tokenIn.decimals) * tokenOut.maxPrice))
                 <= amountIn * tokenIn.minPrice * Pow10(tokenOut.decimals) * g
  {
    SwapFeeBounds(c, tokenIn, tokenOut, amountIn);
    Pow10Positive(tokenIn.decimals);
    Pow10Positive(tokenOut.decimals);
    var g := BASIS_POINTS_DIVISOR - SwapFee(c, tokenIn, tokenOut, amountIn);
    if amountIn > maxAmountIn {
      NonNegativeProduct(amountIn, tokenIn.minPrice, Pow10(tokenOut.decimals), g);
    } else {
      ThreeFloors(amountIn, tokenIn.minPrice, tokenOut.maxPrice, Pow10(tokenOut.decimals), Pow10(tokenIn.decimals), g,
                  BASIS_POINTS_DIVISOR);
      LegQuotients(amountIn, tokenIn.minPrice, tokenOut.maxPrice, Pow10(tokenOut.decimals), Pow10(tokenIn.decimals), g);
    }
  }

  lemma ThreeFloorsAbove(x: nat, p: nat, d: nat, u: nat, v: nat, g: nat, t: nat)
    requires d > 0 && u > 0 && v > 0 && t > 0
    ensures var y := x * p / d * u / v * g / t;
            x * p * u * g < (y + 1) * (t * (v * d)) + d * g * (u + v)
  {
    MulMono(0, x, p);
    FloorTimes(x * p, d);
    var a := x * p / d;
    MulMono(0, a, u);
    FloorTimes(a * u, v);
    var b := a * u / v;
    MulMono(0, b, g);
    FloorBracket(x * p, d);
    FloorBracket(a * u, v);
    FloorBracket(b * g, t);
    MulMono(0, u, g);
    MulMono(0, d, g);
    MulBoth(1, v, 1, d);
    AboveFirst(x * p, a, d, u, g);
    AboveSecond(a, u, b, v, d, g);
    AboveThird(b * g, b * g / t, t, v * d);
    Gathered(a, b, d, u, v, g);
  }

  lemma AboveFirst(n: int, a: int, d: int, u: int, g: int)
    requires n <= a * d + d && u * g >= 0
    ensures n * u * g <= a * u * (d * g) + d * g * u
  {
    MulMono(n, a * d + d, u * g);
    assert n * u * g == n * (u * g);
    assert (a * d + d) * (u * g) == a * u * (d * g) + d * g * u;
  }

  lemma AboveSecond(a: int, u: int, b: int, v: int, d: int, g: int)
    requires a * u <= b * v + v && d * g >= 0
    ensures a * u * (d * g) <= b * v * (d * g) + v * (d * g)
  {
    MulMono(a * u, b * v + v, d * g);
  }

  lemma AboveThird(n: int, y: int, t: int, w: int)
    requires n < y * t + t && w > 0
    ensures n * w < (y + 1) * (t * w)
  {
    StrictProduct(n, y * t + t, w);
    assert (y * t + t) * w == (y + 1) * (t * w);
  }

  lemma Gathered(a: int, b: int, d: int, u: int, v: int, g: int)
    ensures b * v * (d * g) == b * g * (v * d) && v * (d * g) + d * g * u == d * g * (u + v)
  {
  }

  /** One leg pays out no less than that either, but for its three roundings; beyond the maximum it pays nothing. */
  lemma LegAtLeast(c: FeeConfig, tokenIn: Asset, tokenOut: Asset, maxAmountIn: int, amountIn: nat)
    requires ValidFees(c) && ValidAsset(tokenIn) && ValidAsset(tokenOut)
    ensures AmountOut(c, tokenIn, tokenOut, maxAmountIn, amountIn).Success?
    ensures var y, g := AmountOut(c, tokenIn, tokenOut, maxAmountIn, amountIn).value,
                        BASIS_POINTS_DIVISOR - SwapFee(c, tokenIn, tokenOut, amountIn);
            var unitIn, unitOut := Pow10(tokenIn.decimals), Pow10(tokenOut.decimals);
            if amountIn > maxAmountIn then y == 0
            else amountIn * tokenIn.minPrice * unitOut * g
                   < (y + 1) * (BASIS_POINTS_DIVISOR * (unitIn * tokenOut.maxPrice)) + tokenOut.maxPrice * g * (unitOut + unitIn)
  {
    SwapFeeBounds(c, tokenIn, tokenOut, amountIn);
    Pow10Positive(tokenIn.decimals);
    Pow10Positive(tokenOut.decimals);
    var g := BASIS_POINTS_DIVISOR - SwapFee(c, tokenIn, tokenOut, amountIn);
    if amountIn <= maxAmountIn {
      ThreeFloorsAbove(amountIn, tokenIn.minPrice, tokenOut.maxPrice, Pow10(tokenOut.decimals), Pow10(tokenIn.decimals), g,
                       BASIS_POINTS_DIVISOR);
      LegQuotients(amountIn, tokenIn.minPrice, tokenOut.maxPrice, Pow10(tokenOut.decimals), Pow10(tokenIn.decimals), g);
    }
  }

  lemma NonNegativeProduct(a: nat, b: nat, c: nat, d: nat)
    ensures a * b * c * d >= 0
  {
    MulMono(0, a, b);
    MulMono(0, a * b, c);
    MulMono(0, a * b * c, d);
  }

  lemma LegQuotients(x: nat, p: nat, d: nat, u: nat, v: nat, g: nat)
    requires d > 0 && v > 0
    ensures Scaled(Quot(Quot(x * p, d) * u, v), g) == x * p / d * u / v * g / BASIS_POINTS_DIVISOR
  {
    MulMono(0, x, p);
    FloorTimes(x * p, d);
    MulMono(0, x * p / d, u);
    FloorTimes(x * p / d * u, v);
    MulMono(0, x * p / d * u / v, g);
  }

  lemma TwoLegs(x: nat, y: nat, z: nat, a: nat, a': nat, b: nat, b': nat, ua: nat, ub: nat, g1: nat, g2: nat, t: nat)
    requires ub > 0
    requires y * (t * (ua * b')) <= x * a * ub * g1
    requires z * (t * (ub * a')) <= y * b * ua * g2
    ensures z * (a' * b' * (t * t)) <= x * (a * b * (g1 * g2))
  {
    MulMono(0, t, b');
    MulMono(z * (t * (ub * a')), y * b * ua * g2, t * b');
    MulMono(0, b, g2);
    MulMono(y * (t * (ua * b')), x * a * ub * g1, b * g2);
    Returned(z, t, ub, a', b');
    Middle(y, b, ua, g2, t, b');
    Sent(x, a, ub, g1, b, g2);
    CancelRight(z * (a' * b' * (t * t)), x * (a * b * (g1 * g2)), ub);
  }

  lemma Returned(z: int, t: int, ub: int, a': int, b': int)
    ensures z * (t * (ub * a')) * (t * b') == z * (a' * b' * (t * t)) * ub
  {
  }

  lemma Middle(y: int, b: int, ua: int, g2: int, t: int, b': int)
    ensures y * b * ua * g2 * (t * b') == y * (t * (ua * b')) * (b * g2)
  {
  }

  lemma Sent(x: int, a: int, ub: int, g1: int, b: int, g2: int)
    ensures x * a * ub * g1 * (b * g2) == x * (a * b * (g1 * g2)) * ub
  {
  }

  lemma MulBoth(a: nat, a': nat, b: nat, b': nat)
    requires a <= a' && b <= b'
    ensures 0 <= a * b <= a' * b'
  {
    MulMono(0, a, b);
    MulMono(a, a', b);
    MulMono(b, b', a');
  }

  /** A share of at most one, taken in the same unit, returns at most the input. */
  lemma AtMostInput(x: nat, z: nat, p: nat, p': nat)
    requires p <= p' && p' > 0 && z * p' <= x * p
    ensures z <= x
  {
    MulMono(p, p', x);
    CancelRight(z, x, p');
  }

  /**
   There and back: what returns is at most the input, reduced by both price ranges and both fees; in
   particular it is at most the input.
   */
  lemma RoundTripTheorem(c: FeeConfig, a: Asset, b: Asset, maxThere: int, maxBack: int, x: nat)
    requires ValidFees(c) && ValidAsset(a) && ValidAsset(b)
    ensures var y := AmountOut(c, a, b, maxThere, x);
            && y.Success? && y.value >= 0
            && var z := AmountOut(c, b, a, maxBack, y.value);
            && z.Success? && 0 <= z.value <= x
            && z.value * (a.maxPrice * b.maxPrice * (BASIS_POINTS_DIVISOR * BASIS_POINTS_DIVISOR))
                 <= x * (a.minPrice * b.minPrice
                    * ((BASIS_POINTS_DIVISOR - SwapFee(c, a, b, x)) * (BASIS_POINTS_DIVISOR - SwapFee(c, b, a, y.value))))
  {
    LegBound(c, a, b, maxThere, x);
    var y := AmountOut(c, a, b, maxThere, x).value;
    LegBound(c, b, a, maxBack, y);
    var z := AmountOut(c, b, a, maxBack, y).value;
    Pow10Positive(a.decimals);
    Pow10Positive(b.decimals);
    var g1, g2 := BASIS_POINTS_DIVISOR - SwapFee(c, a, b, x), BASIS_POINTS_DIVISOR - SwapFee(c, b, a, y);
    TwoLegs(x, y, z, a.minPrice, a.maxPrice, b.minPrice, b.maxPrice, Pow10(a.decimals), Pow10(b.decimals), g1, g2,
            BASIS_POINTS_DIVISOR);
    Shares(a.minPrice, a.maxPrice, b.minPrice, b.maxPrice, g1, g2, BASIS_POINTS_DIVISOR);
    AtMostInput(x, z, a.minPrice * b.minPrice * (g1 * g2),
                a.maxPrice * b.maxPrice * (BASIS_POINTS_DIVISOR * BASIS_POINTS_DIVISOR));
  }

  lemma Shares(a: nat, a': nat, b: nat, b': nat, g1: nat, g2: nat, t: nat)
    requires a <= a' && b <= b' && 0 < a' && 0 < b' && g1 <= t && g2 <= t && 0 < t
    ensures 0 <= a * b * (g1 * g2) <= a' * b' * (t * t)
    ensures 0 < a' * b' * (t * t)
  {
    MulBoth(a, a', b, b');
    MulBoth(g1, t, g2, t);
    MulBoth(a * b, a' * b', g1 * g2, t * t);
    MulBoth(1, a', 1, b');
    MulBoth(1, t, 1, t);
    MulBoth(1, a' * b', 1, t * t);
  }

  /** A token quoted by the price feeds at one moment. */
  predicate Quoted(a: Asset, c: FeedConfig, f: FastConfig, q: Quotes, includeAmmPrice: bool) {
    && GetPrice(c, f, q, false, includeAmmPrice) == Success(a.minPrice)
    && GetPrice(c, f, q, true, includeAmmPrice) == Success(a.maxPrice)
  }

  /**
   There and back at the prices of the feeds: with valid configurations, that the maximum prices are
   positive is all that is needed for a swap there and back to return at most the input.
   */
  lemma FeedRoundTripTheorem(c: FeeConfig, a: Asset, b: Asset, feedA: FeedConfig, feedB: FeedConfig, f: FastConfig,
                             quotesA: Quotes, quotesB: Quotes, includeAmmPrice: bool, maxThere: int, maxBack: int, x: nat)
    requires ValidFees(c) && ValidConfig(feedA, f) && ValidConfig(feedB, f)
    requires quotesA.fastPrice >= 0 && quotesB.fastPrice >= 0
    requires Quoted(a, feedA, f, quotesA, includeAmmPrice) && Quoted(b, feedB, f, quotesB, includeAmmPrice)
    requires a.maxPrice > 0 && b.maxPrice > 0
    ensures a.minPrice >= 0 && b.minPrice >= 0
    ensures var y := AmountOut(c, a, b, maxThere, x);
            && y.Success? && y.value >= 0
            && var z := AmountOut(c, b, a, maxBack, y.value);
            z.Success? && 0 <= z.value <= x
  {
    MinMaxTheorem(feedA, f, quotesA, includeAmmPrice);
    MinMaxTheorem(feedB, f, quotesB, includeAmmPrice);
    RoundTripTheorem(c, a, b, maxThere, maxBack, x);
  }
}
