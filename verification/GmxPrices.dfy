/**
 GMX price feeds: the primary price, corrected by the fast feed, by the rule for strict stable tokens
 or a spread, and by a final adjustment. Every stage takes the side, maximise or not, into account.
 */
module GmxPrices {
  import opened Wrappers
  import opened Truncating

  const BASIS_POINTS_DIVISOR: int := 10000
  const PRICE_PRECISION: int := 1_000_000_000_000_000_000_000_000_000_000
  const ONE_USD: int := PRICE_PRECISION

  datatype PriceError = NotImplemented | NoPrice | DivisionByZero

  /** One token's configuration in the vault price feed. */
  datatype FeedConfig = FeedConfig(
    isAmmEnabled: bool, isSecondaryPriceEnabled: bool, useV2Pricing: bool, priceSampleSpace: int,
    strictStable: bool, maxStrictPriceDeviation: int, spreadBasisPoints: int,
    adjustmentBasisPoints: int, isAdjustmentAdditive: bool, priceDecimals: nat)

  datatype FastConfig = FastConfig(
    priceDuration: int, maxPriceUpdateDelay: int, maxDeviationBasisPoints: int, favorFastPrice: bool,
    spreadBasisPointsIfInactive: int, spreadBasisPointsIfChainError: int)

  /** What the feeds know of one token, at one moment. */
  datatype Quotes = Quotes(answer: int, fastPrice: int, lastUpdatedAt: int, timestamp: int)

  function Pow10(n: nat): int {
    if n == 0 then 1 else 10 * Pow10(n - 1)
  }

  /** A price scaled by a number of basis points. */
  function Scaled(price: int, bps: int): int {
    Quot(price * bps, BASIS_POINTS_DIVISOR)
  }

  function Spread(price: int, bps: int, maximise: bool): int {
    Scaled(price, if maximise then BASIS_POINTS_DIVISOR + bps else BASIS_POINTS_DIVISOR - bps)
  }

  function Magnitude(x: int): nat {
    if x >= 0 then x else -x
  }

  function FastPrice(f: FastConfig, q: Quotes, refPrice: int, maximise: bool): Result<int, PriceError> {
    if q.timestamp > q.lastUpdatedAt + f.maxPriceUpdateDelay then
      Success(Spread(refPrice, f.spreadBasisPointsIfChainError, maximise))
    else if q.timestamp > q.lastUpdatedAt + f.priceDuration then
      Success(Spread(refPrice, f.spreadBasisPointsIfInactive, maximise))
    else if q.fastPrice == 0 then Success(refPrice)
    else if refPrice == 0 then Failure(DivisionByZero)
    else
      var diffBasisPoints := Quot(Magnitude(refPrice - q.fastPrice) * BASIS_POINTS_DIVISOR, refPrice);
      var hasSpread := !f.favorFastPrice || diffBasisPoints > f.maxDeviationBasisPoints;
      if !hasSpread then Success(q.fastPrice)
      else if maximise then Success(if refPrice > q.fastPrice then refPrice else q.fastPrice)
      else Success(if refPrice < q.fastPrice then refPrice else q.fastPrice)
  }

  function PrimaryPrice(c: FeedConfig, q: Quotes): Result<int, PriceError> {
    if c.priceSampleSpace > 1 then Failure(NotImplemented)
    else if q.answer <= 0 then Failure(NoPrice)
    else
      Pow10Positive(c.priceDecimals);
      Success(Quot(q.answer * PRICE_PRECISION, Pow10(c.priceDecimals)))
  }

  function StablePrice(c: FeedConfig, price: int, maximise: bool): int {
    if Magnitude(price - ONE_USD) <= c.maxStrictPriceDeviation then ONE_USD
    else if maximise && price > ONE_USD then price
    else if !maximise && price < ONE_USD then price
    else ONE_USD
  }

  function PriceV1(c: FeedConfig, f: FastConfig, q: Quotes, maximise: bool, includeAmmPrice: bool): Result<int, PriceError> {
    var primary :- PrimaryPrice(c, q);
    if includeAmmPrice && c.isAmmEnabled then Failure(NotImplemented)
    else
      var price :- if c.isSecondaryPriceEnabled then FastPrice(f, q, primary, maximise) else Success(primary);
      Success(if c.strictStable then StablePrice(c, price, maximise) else Spread(price, c.spreadBasisPoints, maximise))
  }

  function Adjusted(c: FeedConfig, price: int): int {
    if c.adjustmentBasisPoints > 0 then
      Scaled(price, if c.isAdjustmentAdditive then BASIS_POINTS_DIVISOR + c.adjustmentBasisPoints
                    else BASIS_POINTS_DIVISOR - c.adjustmentBasisPoints)
    else price
  }

  function GetPrice(c: FeedConfig, f: FastConfig, q: Quotes, maximise: bool, includeAmmPrice: bool): Result<int, PriceError> {
    if c.useV2Pricing then Failure(NotImplemented)
    else
      var price :- PriceV1(c, f, q, maximise, includeAmmPrice);
      Success(Adjusted(c, price))
  }

  lemma Pow10Positive(n: nat)
    ensures Pow10(n) > 0
  {
  }

  // ---------------------------------------------------------------- min never exceeds max

  /** Basis points are shares of one, and a subtracted adjustment takes away no more than the price. */
  predicate ValidConfig(c: FeedConfig, f: FastConfig) {
    && 0 <= c.spreadBasisPoints <= BASIS_POINTS_DIVISOR
    && (c.isAdjustmentAdditive || c.adjustmentBasisPoints <= BASIS_POINTS_DIVISOR)
    && 0 <= f.spreadBasisPointsIfInactive <= BASIS_POINTS_DIVISOR
    && 0 <= f.spreadBasisPointsIfChainError <= BASIS_POINTS_DIVISOR
  }

  lemma ScaledMono(p: int, p': int, b: int, b': int)
    requires 0 <= p <= p' && b <= b' && 0 <= b'
    ensures Scaled(p, b) <= Scaled(p', b')
  {
    MulMono(p, p', b');
    MulMono(b, b', p);
    QuotMono(p * b, p' * b', BASIS_POINTS_DIVISOR);
  }

  lemma ScaledAtLeast(p: int, b: int)
    requires 0 <= p && 0 <= b
    ensures 0 <= Scaled(p, b)
    ensures b >= BASIS_POINTS_DIVISOR ==> p <= Scaled(p, b)
    ensures b <= BASIS_POINTS_DIVISOR ==> Scaled(p, b) <= p
  {
    MulMono(0, p, b);
    FloorAtLeast(p * b, BASIS_POINTS_DIVISOR, 0);
    if b >= BASIS_POINTS_DIVISOR {
      MulMono(BASIS_POINTS_DIVISOR, b, p);
      FloorAtLeast(p * b, BASIS_POINTS_DIVISOR, p);
    }
    if b <= BASIS_POINTS_DIVISOR {
      MulMono(b, BASIS_POINTS_DIVISOR, p);
      FloorBelow(p * b, BASIS_POINTS_DIVISOR, p + 1);
    }
  }

  lemma SpreadWidens(p: int, p': int, bps: int)
    requires 0 <= p <= p' && 0 <= bps <= BASIS_POINTS_DIVISOR
    ensures 0 <= Spread(p, bps, false) <= p <= p' <= Spread(p', bps, true)
  {
    ScaledAtLeast(p', BASIS_POINTS_DIVISOR + bps);
    ScaledAtLeast(p, BASIS_POINTS_DIVISOR - bps);
  }

  /** The two sides of one stage: both fail, or the minimising side is the lower one. */
  ghost predicate Ordered(lo: Result<int, PriceError>, hi: Result<int, PriceError>) {
    (lo.Failure? && hi == lo) || (lo.Success? && hi.Success? && 0 <= lo.value <= hi.value)
  }

  lemma PrimaryOrdered(c: FeedConfig, q: Quotes)
    ensures Ordered(PrimaryPrice(c, q), PrimaryPrice(c, q))
  {
    Pow10Positive(c.priceDecimals);
    if q.answer > 0 {
      NatQuotient(q.answer * PRICE_PRECISION, Pow10(c.priceDecimals));
    }
  }

  lemma FastOrdered(f: FastConfig, q: Quotes, refPrice: int)
    requires refPrice >= 0 && q.fastPrice >= 0
    requires 0 <= f.spreadBasisPointsIfInactive <= BASIS_POINTS_DIVISOR
    requires 0 <= f.spreadBasisPointsIfChainError <= BASIS_POINTS_DIVISOR
    ensures Ordered(FastPrice(f, q, refPrice, false), FastPrice(f, q, refPrice, true))
  {
    SpreadWidens(refPrice, refPrice, f.spreadBasisPointsIfInactive);
    SpreadWidens(refPrice, refPrice, f.spreadBasisPointsIfChainError);
  }

  lemma AdjustedOrdered(c: FeedConfig, lo: int, hi: int)
    requires 0 <= lo <= hi && (c.isAdjustmentAdditive || c.adjustmentBasisPoints <= BASIS_POINTS_DIVISOR)
    ensures 0 <= Adjusted(c, lo) <= Adjusted(c, hi)
  {
    if c.adjustmentBasisPoints > 0 {
      var b := if c.isAdjustmentAdditive then BASIS_POINTS_DIVISOR + c.adjustmentBasisPoints
               else BASIS_POINTS_DIVISOR - c.adjustmentBasisPoints;
      ScaledAtLeast(lo, b);
      ScaledMono(lo, hi, b, b);
    }
  }

  /** At one moment, a token's minimum price is never above its maximum price, and they fail together. */
  lemma MinMaxTheorem(c: FeedConfig, f: FastConfig, q: Quotes, includeAmmPrice: bool)
    requires ValidConfig(c, f) && q.fastPrice >= 0
    ensures Ordered(GetPrice(c, f, q, false, includeAmmPrice), GetPrice(c, f, q, true, includeAmmPrice))
  {
    PrimaryOrdered(c, q);
    var primary := PrimaryPrice(c, q);
    if primary.Success? {
      FastOrdered(f, q, primary.value);
      var lo := if c.isSecondaryPriceEnabled then FastPrice(f, q, primary.value, false) else primary;
      var hi := if c.isSecondaryPriceEnabled then FastPrice(f, q, primary.value, true) else primary;
      if lo.Success? {
        SpreadWidens(lo.value, hi.value, c.spreadBasisPoints);
        var a := if c.strictStable then StablePrice(c, lo.value, false) else Spread(lo.value, c.spreadBasisPoints, false);
        var b := if c.strictStable then StablePrice(c, hi.value, true) else Spread(hi.value, c.spreadBasisPoints, true);
        AdjustedOrdered(c, a, b);
      }
    }
  }

  // ---------------------------------------------------------------- what the stages compute

  /** q is a / b, rounded down. */
  predicate FloorOf(q: int, a: int, b: int) {
    q * b <= a < q * b + b
  }

  /** The primary price is the answer at its decimals, in units of the price precision, rounded down. */
  lemma PrimaryTheorem(c: FeedConfig, q: Quotes)
    ensures var r := PrimaryPrice(c, q);
            if c.priceSampleSpace > 1 then r == Failure(NotImplemented)
            else if q.answer <= 0 then r == Failure(NoPrice)
            else r.Success? && FloorOf(r.value, q.answer * PRICE_PRECISION, Pow10(c.priceDecimals))
  {
    Pow10Positive(c.priceDecimals);
    if q.answer > 0 {
      FloorBracket(q.answer * PRICE_PRECISION, Pow10(c.priceDecimals));
    }
  }

  /** A price with so many basis points, rounded down. */
  lemma ScaledIs(price: int, bps: int)
    requires price >= 0 && bps >= 0
    ensures FloorOf(Scaled(price, bps), price * bps, 10000)
  {
    MulMono(0, price, bps);
    FloorBracket(price * bps, 10000);
  }

  /** How far the fast price is from the reference, in whole basis points of the reference. */
  ghost predicate DeviatesMoreThan(refPrice: int, fastPrice: int, bps: int) {
    (if refPrice > fastPrice then refPrice - fastPrice else fastPrice - refPrice) * 10000 >= (bps + 1) * refPrice
  }

  lemma DeviationIs(refPrice: int, fastPrice: int, bps: int)
    requires refPrice > 0
    ensures Quot(Magnitude(refPrice - fastPrice) * BASIS_POINTS_DIVISOR, refPrice) > bps <==> DeviatesMoreThan(refPrice, fastPrice, bps)
  {
    var n := Magnitude(refPrice - fastPrice) * BASIS_POINTS_DIVISOR;
    FloorBracket(n, refPrice);
    if n >= (bps + 1) * refPrice {
      FloorAtLeast(n, refPrice, bps + 1);
    } else {
      FloorBelow(n, refPrice, bps + 1);
    }
  }

  /**
   The fast feed. An update too long ago leaves the reference price, spread by the one or the other number
   of basis points to either side. A recent one counts alone if it is favoured and within its deviation, and
   otherwise the higher of the two prices is the maximum and the lower one the minimum.
   */
  lemma FastTheorem(f: FastConfig, q: Quotes, refPrice: int, maximise: bool)
    requires refPrice > 0 && q.fastPrice >= 0
    requires 0 <= f.spreadBasisPointsIfInactive <= 10000 && 0 <= f.spreadBasisPointsIfChainError <= 10000
    ensures FastPrice(f, q, refPrice, maximise).Success?
    ensures var p, age := FastPrice(f, q, refPrice, maximise).value, q.timestamp - q.lastUpdatedAt;
            if age > f.maxPriceUpdateDelay then SpreadFrom(p, refPrice, f.spreadBasisPointsIfChainError, maximise)
            else if age > f.priceDuration then SpreadFrom(p, refPrice, f.spreadBasisPointsIfInactive, maximise)
            else if q.fastPrice == 0 then p == refPrice
            else if f.favorFastPrice && !DeviatesMoreThan(refPrice, q.fastPrice, f.maxDeviationBasisPoints) then p == q.fastPrice
            else
              && (p == refPrice || p == q.fastPrice)
              && (if maximise then refPrice <= p && q.fastPrice <= p else p <= refPrice && p <= q.fastPrice)
  {
    SpreadIs(refPrice, f.spreadBasisPointsIfChainError, maximise);
    SpreadIs(refPrice, f.spreadBasisPointsIfInactive, maximise);
    DeviationIs(refPrice, q.fastPrice, f.maxDeviationBasisPoints);
  }

  /** p is the price with the basis points added for the maximum and taken off for the minimum, rounded down. */
  predicate SpreadFrom(p: int, price: int, bps: int, maximise: bool) {
    FloorOf(p, price * (if maximise then 10000 + bps else 10000 - bps), 10000)
  }

  lemma SpreadIs(price: int, bps: int, maximise: bool)
    requires price >= 0 && 0 <= bps <= 10000
    ensures SpreadFrom(Spread(price, bps, maximise), price, bps, maximise)
  {
    ScaledIs(price, if maximise then 10000 + bps else 10000 - bps);
  }

  /** A strict stable token costs a dollar near it; further off, the maximum may be above and the minimum below. */
  lemma StableTheorem(c: FeedConfig, price: int, maximise: bool)
    ensures var p, dollar := StablePrice(c, price, maximise), 1_000_000_000_000_000_000_000_000_000_000;
            && (dollar - c.maxStrictPriceDeviation <= price <= dollar + c.maxStrictPriceDeviation ==> p == dollar)
            && (maximise && price > dollar + c.maxStrictPriceDeviation && price > dollar ==> p == price)
            && (!maximise && price < dollar - c.maxStrictPriceDeviation && price < dollar ==> p == price)
            && (if maximise then p >= dollar else p <= dollar)
  {
  }

  /** A strict stable token held at a dollar, any other price spread. */
  ghost predicate StagedFrom(c: FeedConfig, p: int, price: int, maximise: bool) {
    if c.strictStable then p == StablePrice(c, price, maximise) else SpreadFrom(p, price, c.spreadBasisPoints, maximise)
  }

  /** The final adjustment, a share added or taken off for both sides alike. */
  ghost predicate AdjustedFrom(c: FeedConfig, p: int, price: int) {
    if c.adjustmentBasisPoints <= 0 then p == price
    else FloorOf(p, price * (if c.isAdjustmentAdditive then 10000 + c.adjustmentBasisPoints else 10000 - c.adjustmentBasisPoints), 10000)
  }

  lemma StagedIs(c: FeedConfig, f: FastConfig, price: int, maximise: bool)
    requires ValidConfig(c, f) && price >= 0
    ensures var p := if c.strictStable then StablePrice(c, price, maximise) else Spread(price, c.spreadBasisPoints, maximise);
            p >= 0 && StagedFrom(c, p, price, maximise)
  {
    if !c.strictStable {
      SpreadIs(price, c.spreadBasisPoints, maximise);
      SpreadWidens(price, price, c.spreadBasisPoints);
    }
  }

  lemma AdjustedIs(c: FeedConfig, f: FastConfig, price: int)
    requires ValidConfig(c, f) && price >= 0
    ensures AdjustedFrom(c, Adjusted(c, price), price)
  {
    if c.adjustmentBasisPoints > 0 {
      ScaledIs(price, if c.isAdjustmentAdditive then 10000 + c.adjustmentBasisPoints else 10000 - c.adjustmentBasisPoints);
    }
  }

  /** What stands between the answer of the primary feed and the price. */
  datatype Stages = Stages(primary: int, corrected: int, staged: int)

  ghost predicate Through(c: FeedConfig, f: FastConfig, q: Quotes, maximise: bool, t: Stages, price: int) {
    && FloorOf(t.primary, q.answer * PRICE_PRECISION, Pow10(c.priceDecimals))
    && (if c.isSecondaryPriceEnabled then FastPrice(f, q, t.primary, maximise) == Success(t.corrected) else t.corrected == t.primary)
    && StagedFrom(c, t.staged, t.corrected, maximise)
    && AdjustedFrom(c, price, t.staged)
  }

  /** A price that is given has gone through all stages, in this order. */
  lemma StagesTheorem(c: FeedConfig, f: FastConfig, q: Quotes, maximise: bool, includeAmmPrice: bool)
    requires ValidConfig(c, f) && q.fastPrice >= 0 && GetPrice(c, f, q, maximise, includeAmmPrice).Success?
    ensures exists t: Stages :: Through(c, f, q, maximise, t, GetPrice(c, f, q, maximise, includeAmmPrice).value)
  {
    PrimaryTheorem(c, q);
    PrimaryOrdered(c, q);
    var primary := PrimaryPrice(c, q).value;
    FastOrdered(f, q, primary);
    var corrected := if c.isSecondaryPriceEnabled then FastPrice(f, q, primary, maximise).value else primary;
    StagedIs(c, f, corrected, maximise);
    var staged := if c.strictStable then StablePrice(c, corrected, maximise) else Spread(corrected, c.spreadBasisPoints, maximise);
    AdjustedIs(c, f, staged);
    assert Through(c, f, q, maximise, Stages(primary, corrected, staged), GetPrice(c, f, q, maximise, includeAmmPrice).value);
  }
}
