/**
 Balancer V2's natural exponential: the argument is split into powers of two, the precomputed
 exponentials of those are multiplied together, and twelve Taylor terms handle the remainder.
 */
module LogExpExponential {
  import opened Truncating
  import opened RealErrors
  import opened ExponentialSeries
  import opened LogExpConstants

  datatype LogExpError = InvalidExponent | XOutOfBounds | YOutOfBounds | ProductOutOfBounds

  const UNIT: real := ONE_20 as real
  const DELTA: real := 1.0 / UNIT

  // ---------------------------------------------------------------- the exact value

  /** Whether the binary expansion of x, in units of the last constant, contains X(n). */
  predicate Contains(x: nat, n: int)
    requires 2 <= n <= 9
  {
    Constants(n);
    (x / X(n)) % 2 == 1
  }

  /** The product of the constants from the second to the n-th that the expansion of x contains. */
  ghost function Factors(x: nat, n: int): real
    requires 1 <= n <= 9
    decreases n
  {
    if n == 1 then 1.0
    else if Contains(x, n) then Times(Factors(x, n - 1), A(n) as real / UNIT)
    else Factors(x, n - 1)
  }

  /** The first factor, which has no decimals, and what it leaves of x. */
  function First(x: int): int {
    if x >= X0 then A0 else if x >= X1 then A1 else 1
  }

  function AfterFirst(x: int): int {
    if x >= X0 then x - X0 else if x >= X1 then x - X1 else x
  }

  /** The value Exp rounds: the constants of the expansion times the series of the remainder. */
  ghost function ExactExp(x: nat): real {
    var y := 100 * AfterFirst(x);
    Constants(9);
    if y < 0 then 0.0
    else Times(First(x) as real, Times(Factors(y, 9), TaylorSum((y % X(9)) as real / UNIT, 12)))
  }

  // ---------------------------------------------------------------- rounding down

  ghost function Unscaled(p: int): real {
    p as real / UNIT
  }

  /** v is e rounded down m times, each time by at most DELTA of a value of at least one. */
  ghost predicate LowBy(v: real, e: real, m: nat) {
    e >= 1.0 && 0.0 <= e - v <= Times(e, m as real * DELTA)
  }

  lemma Shares(e: real, m: nat, n: nat)
    ensures Times(e, m as real * DELTA) + Times(e, n as real * DELTA) == Times(e, (m + n) as real * DELTA)
  {
  }

  lemma ProductAtLeastOne(e: real, f: real)
    requires e >= 1.0 && f >= 1.0
    ensures Times(e, f) >= 1.0
  {
    TimesMono(1.0, e, f);
  }

  /** Relative errors add up under multiplication, and rounding the product down costs one more. */
  lemma ProductLow(v: real, e: real, m: nat, w: real, f: real, n: nat, r: real)
    requires LowBy(v, e, m) && LowBy(w, f, n) && w >= 0.0 && Times(v, w) - DELTA <= r <= Times(v, w)
    ensures LowBy(r, Times(e, f), m + n + 1)
  {
    var ef := Times(e, f);
    ProductAtLeastOne(e, f);
    LowProduct(v, e, m as real * DELTA, w, f, n as real * DELTA);
    Shares(ef, m, n);
    Shares(ef, m + n, 1);
    TimesMono(1.0, ef, DELTA);
    TimesSymmetric(ef, DELTA);
  }

  lemma LowProduct(v: real, e: real, d: real, w: real, f: real, g: real)
    requires e >= 1.0 && f >= w >= 0.0 && d >= 0.0
    requires 0.0 <= e - v <= Times(e, d) && f - w <= Times(f, g)
    ensures 0.0 <= Times(e, f) - Times(v, w) <= Times(Times(e, f), d) + Times(Times(e, f), g)
  {
    DifferenceOfProducts(e, v, w);
    TimesMono(0.0, e - v, w);
    TimesMono(e - v, Times(e, d), w);
    TimesMono(w, f, e);
    TimesMono(w, f, Times(e, d));
    DifferenceOfProducts(f, w, e);
    TimesMono(f - w, Times(f, g), e);
    Regroup(e, f, w, d, g);
  }

  lemma Regroup(e: real, f: real, w: real, d: real, g: real)
    ensures Times(Times(f, g), e) == Times(Times(e, f), g)
    ensures Times(f, Times(e, d)) == Times(Times(e, f), d)
    ensures Times(Times(e, d), w) == Times(w, Times(e, d))
    ensures Times(f, e) == Times(e, f) && Times(w, e) == Times(e, w)
  {
    assert f * g * e == e * f * g;
  }

  lemma FloorOnce(p: int, a: int, q: int)
    requires q * ONE_20 <= p * a < q * ONE_20 + ONE_20
    ensures Times(Unscaled(p), Unscaled(a)) - DELTA <= Unscaled(q) <= Times(Unscaled(p), Unscaled(a))
  {
    assert p as real * a as real == (p * a) as real;
    assert Times(Unscaled(p), Unscaled(a)) == (p * a) as real / (UNIT * UNIT);
  }

  // ---------------------------------------------------------------- powers of two

  lemma QuotientIs(y: int, m: int, k: int, r: int)
    requires m > 0 && y == k * m + r && 0 <= r < m
    ensures y / m == k && y % m == r
  {
    FloorAtLeast(y, m, k);
    FloorBelow(y, m, k + 1);
  }

  /** One binary digit: what is left below 2 * m decides the digit of m. */
  lemma BinaryDigit(y: nat, m: int)
    requires m > 0
    ensures var x := y % (2 * m);
            && ((y / m) % 2 == 1 <==> x >= m)
            && y % m == if x >= m then x - m else x
  {
    var q, x := y / (2 * m), y % (2 * m);
    FloorBracket(y, 2 * m);
    assert y == (2 * q) * m + x;
    if x >= m {
      assert y == (2 * q + 1) * m + (x - m);
      QuotientIs(y, m, 2 * q + 1, x - m);
    } else {
      QuotientIs(y, m, 2 * q, x);
    }
  }

  // ---------------------------------------------------------------- the greedy steps

  /** After the n-th constant: x is the remainder of y, and product stands for the constants found. */
  ghost predicate Reduced(y: nat, n: int, x: int, product: int)
    requires 1 <= n <= 9
  {
    && (if n == 1 then x == y < 2 * X(2) else x == y % X(n))
    && LowBy(Unscaled(product), Factors(y, n), n - 1)
    && product >= ONE_20 + (y - x)
  }

  lemma Remainder(y: nat, n: int, x: int)
    requires 2 <= n <= 9 && (if n == 2 then x == y < 2 * X(2) else x == y % X(n - 1))
    ensures 0 <= x && (Contains(y, n) <==> x >= X(n))
    ensures y % X(n) == if x >= X(n) then x - X(n) else x
    ensures x <= y
  {
    Constants(n);
    FloorBracket(y, if n == 2 then 2 * X(2) else X(n - 1));
    FloorAtLeast(y, if n == 2 then 2 * X(2) else X(n - 1), 0);
    BinaryDigit(y, X(n));
    if n == 2 {
      QuotientIs(y, 2 * X(2), 0, y);
    }
  }

  /** One constant: taken out of x and multiplied into the product when x has reached it. */
  method ReduceStep(x: int, product: int, n: int, ghost y: nat) returns (x': int, product': int)
    requires 2 <= n <= 9 && Reduced(y, n - 1, x, product)
    ensures Reduced(y, n, x', product')
  {
    x', product' := x, product;
    Constants(n);
    Remainder(y, n, x);
    if x >= X(n) {
      x' := x - X(n);
      product' := Quot(product * A(n), ONE_20);
      ProductStep(y, n, x, product);
    } else {
      MoreShare(Unscaled(product), Factors(y, n - 1), (n - 1) - 1);
    }
  }

  lemma MoreShare(v: real, e: real, m: nat)
    requires LowBy(v, e, m)
    ensures LowBy(v, e, m + 1)
  {
    Shares(e, m, 1);
    TimesMono(0.0, e, DELTA);
    TimesSymmetric(e, DELTA);
  }

  lemma NothingLost(v: real)
    requires v >= 1.0
    ensures LowBy(v, v, 0)
  {
    TimesSymmetric(v, 0.0);
  }

  lemma ProductStep(y: nat, n: int, x: int, product: int)
    requires 2 <= n <= 9 && Contains(y, n) && x <= y && Reduced(y, n - 1, x, product)
    ensures var p := Quot(product * A(n), ONE_20);
            LowBy(Unscaled(p), Factors(y, n), (n - 1) - 1 + 0 + 1) && p >= ONE_20 + (y - x) + X(n)
  {
    Constants(n);
    OneFactor(product, A(n), y - x, X(n), Factors(y, n - 1), (n - 1) - 1);
  }

  lemma OneFactor(product: int, a: int, s: int, x: int, f: real, m: nat)
    requires product >= ONE_20 + s && a >= ONE_20 + x && s >= 0 && x >= 0 && LowBy(Unscaled(product), f, m)
    ensures var p := Quot(product * a, ONE_20);
            p >= ONE_20 + s + x && LowBy(Unscaled(p), Times(f, Unscaled(a)), m + 0 + 1)
  {
    GrowthArithmetic(product, a, s, x);
    FloorBracket(product * a, ONE_20);
    FloorOnce(product, a, product * a / ONE_20);
    NothingLost(Unscaled(a));
    ProductLow(Unscaled(product), f, m, Unscaled(a), Unscaled(a), 0, Unscaled(product * a / ONE_20));
  }

  /** (1 + s) * (1 + x) is at least 1 + s + x, and rounding down keeps that. */
  lemma GrowthArithmetic(p: int, a: int, s: int, x: int)
    requires p >= ONE_20 + s && a >= ONE_20 + x && s >= 0 && x >= 0
    ensures p * a >= 0 && p * a / ONE_20 >= ONE_20 + s + x
  {
    MulMono(ONE_20 + s, p, a);
    MulMono(ONE_20 + x, a, ONE_20 + s);
    MulMono(0, s, x);
    assert (ONE_20 + x) * (ONE_20 + s) == (ONE_20 + s + x) * ONE_20 + s * x;
    FloorAtLeast(p * a, ONE_20, ONE_20 + s + x);
  }

  // ---------------------------------------------------------------- the Taylor series

  /** The n-th term and the sum so far, each within its rounding of the exact one. */
  ghost predicate Summed(r: real, n: nat, term: int, sum: int, x: int) {
    && n >= 1 && term >= 0 && sum >= ONE_20 + x
    && 0.0 <= TaylorTerm(r, n) - Unscaled(term) <= 2.0 * DELTA
    && 0.0 <= TaylorSum(r, n) - Unscaled(sum) <= 2.0 * n as real * DELTA
    && TaylorSum(r, n) >= 1.0 && TaylorTerm(r, n) >= 0.0
  }

  lemma TermArithmetic(term: int, x: int, n: int)
    requires term >= 0 && 0 <= 4 * x < ONE_20 && n >= 2
    ensures var t := Quot(Quot(term * x, ONE_20), n);
            0 <= t && t * n * ONE_20 <= term * x < (t * n + n) * ONE_20
  {
    MulMono(0, term, x);
    FloorBracket(term * x, ONE_20);
    FloorAtLeast(term * x, ONE_20, 0);
    var u := term * x / ONE_20;
    FloorBracket(u, n);
    FloorAtLeast(u, n, 0);
  }

  lemma TermRounding(term: int, x: int, n: int, t: int, e: real)
    requires term >= 0 && 0 <= 4 * x < ONE_20 && n >= 2
    requires t * n * ONE_20 <= term * x < (t * n + n) * ONE_20
    requires 0.0 <= e - Unscaled(term) <= 2.0 * DELTA
    ensures 0.0 <= Times(e, Unscaled(x) / n as real) - Unscaled(t) <= 2.0 * DELTA
  {
    var q := Unscaled(x) / n as real;
    TermQuotient(term, x, n, t);
    DifferenceOfProducts(e, Unscaled(term), q);
    assert 0.0 <= q <= 0.125;
    TimesMono(0.0, e - Unscaled(term), q);
    TimesMono(e - Unscaled(term), 2.0 * DELTA, q);
  }

  lemma TermQuotient(term: int, x: int, n: int, t: int)
    requires n >= 2 && t * n * ONE_20 <= term * x < (t * n + n) * ONE_20
    ensures 0.0 <= Times(Unscaled(term), Unscaled(x) / n as real) - Unscaled(t) <= DELTA
  {
    var nr, d := n as real, Times(Unscaled(term), Unscaled(x) / n as real) - Unscaled(t);
    assert Unscaled(x) / nr * nr == Unscaled(x);
    assert (term * x) as real == term as real * x as real;
    assert (t * n) as real == t as real * nr;
    assert Times(Unscaled(term), Unscaled(x) / nr) * nr == Times(Unscaled(term), Unscaled(x));
    assert d * nr == (term * x) as real / (UNIT * UNIT) - (t * n) as real / UNIT;
    assert 0.0 <= d * nr <= DELTA * nr;
    if d < 0.0 {
      RealMulMono(d, 0.0, nr);
    } else if d > DELTA {
      RealMulMono(DELTA, d, nr);
    }
  }

  /** Adding a term to the sum adds their errors. */
  lemma TermSummed(exactSum: real, exactTerm: real, sum: int, t: int, n: int)
    requires 0.0 <= exactSum - Unscaled(sum) <= 2.0 * (n - 1) as real * DELTA
    requires 0.0 <= exactTerm - Unscaled(t) <= 2.0 * DELTA
    ensures 0.0 <= exactSum + exactTerm - Unscaled(sum + t) <= 2.0 * n as real * DELTA
  {
  }

  lemma NextSummed(r: real, x: int, n: nat, term: int, sum: int, t: int)
    requires n >= 2 && 0 <= 4 * x < ONE_20 && r == Unscaled(x) && Summed(r, n - 1, term, sum, x)
    requires 0 <= t && t * n * ONE_20 <= term * x < (t * n + n) * ONE_20
    ensures Summed(r, n, t, sum + t, x)
  {
    TermRounding(term, x, n, t, TaylorTerm(r, n - 1));
    assert TaylorTerm(r, n) == Times(TaylorTerm(r, n - 1), r / n as real);
    TermSummed(TaylorSum(r, n - 1), TaylorTerm(r, n), sum, t, n);
  }

  /** One Taylor term, from the one before, added to the sum. */
  method TaylorStep(term: int, sum: int, x: int, n: int) returns (term': int, sum': int)
    requires 2 <= n <= 12 && 0 <= 4 * x < ONE_20 && Summed(Unscaled(x), n - 1, term, sum, x)
    ensures Summed(Unscaled(x), n, term', sum', x)
  {
    term' := Quot(Quot(term * x, ONE_20), n);
    sum' := sum + term';
    TermArithmetic(term, x, n);
    NextSummed(Unscaled(x), x, n, term, sum, term');
  }

  lemma FirstTaylor(x: int)
    requires 0 <= x
    ensures Summed(Unscaled(x), 1, x, ONE_20 + x, x)
  {
    var r := Unscaled(x);
    assert TaylorTerm(r, 1) == Times(TaylorTerm(r, 0), r / 1.0) == r;
    assert TaylorSum(r, 1) == TaylorSum(r, 0) + TaylorTerm(r, 1);
  }

  /** The exponential series at x, with 20 decimals. */
  method Taylor(x: int) returns (seriesSum: int)
    requires 0 <= 4 * x < ONE_20
    ensures seriesSum >= ONE_20 + x && LowBy(Unscaled(seriesSum), TaylorSum(Unscaled(x), 12), 24)
  {
    seriesSum := ONE_20;
    var term := x;
    seriesSum := seriesSum + term;
    FirstTaylor(x);
    term, seriesSum := TaylorStep(term, seriesSum, x, 2);
    term, seriesSum := TaylorStep(term, seriesSum, x, 3);
    term, seriesSum := TaylorStep(term, seriesSum, x, 4);
    term, seriesSum := TaylorStep(term, seriesSum, x, 5);
    term, seriesSum := TaylorStep(term, seriesSum, x, 6);
    term, seriesSum := TaylorStep(term, seriesSum, x, 7);
    term, seriesSum := TaylorStep(term, seriesSum, x, 8);
    term, seriesSum := TaylorStep(term, seriesSum, x, 9);
    term, seriesSum := TaylorStep(term, seriesSum, x, 10);
    term, seriesSum := TaylorStep(term, seriesSum, x, 11);
    term, seriesSum := TaylorStep(term, seriesSum, x, 12);
    SeriesLow(Unscaled(x), 12, term, seriesSum, x);
  }

  lemma SeriesLow(r: real, n: nat, term: int, sum: int, x: int)
    requires Summed(r, n, term, sum, x)
    ensures sum >= ONE_20 + x && LowBy(Unscaled(sum), TaylorSum(r, n), 2 * n)
  {
    var share := (2 * n) as real * DELTA;
    TimesMono(1.0, TaylorSum(r, n), share);
  }

  // ---------------------------------------------------------------- the exponential

  /** Roundings in all: 8 constants, 24 for the series, one for their product. */
  const ROUNDINGS := 33

  /** r is the exact value rounded down, to 18 decimals: never above it, and barely below. */
  ghost predicate ApproximatesExp(x: nat, r: int) {
    var e := ONE_18 as real * ExactExp(x);
    Times(e, 1.0 - ROUNDINGS as real * DELTA) - 1.0 <= r as real <= e
  }

  /** The scaled remainder the greedy steps begin with, and the product of everything they find. */
  method ReduceAll(y: nat) returns (x: int, product: int)
    requires y < 2 * X(2)
    ensures x == y % X(9) && product >= ONE_20 + (y - x) && LowBy(Unscaled(product), Factors(y, 9), 8)
  {
    x := y;
    product := ONE_20;
    x, product := ReduceStep(x, product, 2, y);
    x, product := ReduceStep(x, product, 3, y);
    x, product := ReduceStep(x, product, 4, y);
    x, product := ReduceStep(x, product, 5, y);
    x, product := ReduceStep(x, product, 6, y);
    x, product := ReduceStep(x, product, 7, y);
    x, product := ReduceStep(x, product, 8, y);
    x, product := ReduceStep(x, product, 9, y);
  }

  lemma Combined(product: int, s: int, seriesSum: int, x: int, f: real, t: real)
    requires product >= ONE_20 + s && seriesSum >= ONE_20 + x && s >= 0 && x >= 0
    requires LowBy(Unscaled(product), f, 8) && LowBy(Unscaled(seriesSum), t, 24)
    ensures var c := Quot(product * seriesSum, ONE_20);
            c >= ONE_20 + s + x && LowBy(Unscaled(c), Times(f, t), ROUNDINGS)
  {
    GrowthArithmetic(product, seriesSum, s, x);
    FloorBracket(product * seriesSum, ONE_20);
    FloorOnce(product, seriesSum, product * seriesSum / ONE_20);
    ProductLow(Unscaled(product), f, 8, Unscaled(seriesSum), t, 24, Unscaled(product * seriesSum / ONE_20));
  }

  lemma FinalArithmetic(x: int, c: int)
    requires 0 <= x <= MAX_NATURAL_EXPONENT && c >= ONE_20 + 100 * AfterFirst(x)
    ensures c * First(x) >= 0 && c * First(x) / 100 >= ONE_18 + x
  {
    if x >= X0 {
      assert c * A0 >= ONE_20 * A0 >= 100 * (ONE_18 + MAX_NATURAL_EXPONENT);
    } else if x >= X1 {
      assert c * A1 >= ONE_20 * A1 >= 100 * (ONE_18 + MAX_NATURAL_EXPONENT);
    }
  }

  lemma FinalRounding(c: int, e: real, first: int, r: int)
    requires first >= 1 && LowBy(Unscaled(c), e, ROUNDINGS) && 100 * r <= c * first < 100 * r + 100
    ensures var exact := ONE_18 as real * Times(first as real, e);
            Times(exact, 1.0 - ROUNDINGS as real * DELTA) - 1.0 <= r as real <= exact
  {
    var f, d := first as real, ROUNDINGS as real * DELTA;
    var exact := ONE_18 as real * Times(f, e);
    assert (c * first) as real == c as real * f;
    var scaled := Times(Unscaled(c), f);
    assert scaled * UNIT == (c * first) as real;
    TimesMono(Unscaled(c), e, f);
    TimesMono(e - Times(e, d), Unscaled(c), f);
    TimesSymmetric(e, f);
    assert Times(e - Times(e, d), f) == Times(f, e) - Times(f, e) * d;
    assert Times(exact, 1.0 - d) == exact - exact * d;
  }

  /** The exponential of an argument that is not negative. */
  method ExpNonNegative(x0_: nat) returns (r: int)
    requires x0_ <= MAX_NATURAL_EXPONENT
    ensures r >= ONE_18 + x0_
    ensures ApproximatesExp(x0_, r)
    ensures x0_ == 0 ==> r == ONE_18
  {
    var x: int := x0_;
    var firstAN := First(x0_);
    x := AfterFirst(x0_);
    x := x * 100;
    ghost var y := x;
    var product;
    x, product := ReduceAll(x);
    assert 0 <= 4 * x < ONE_20;
    var seriesSum := Taylor(x);
    Combined(product, y - x, seriesSum, x, Factors(y, 9), TaylorSum(Unscaled(x), 12));
    var c := Quot(product * seriesSum, ONE_20);
    FinalArithmetic(x0_, c);
    r := Quot(c * firstAN, 100);
    FinalRounding(c, Times(Factors(y, 9), TaylorSum(Unscaled(x), 12)), firstAN, r);
  }
}
