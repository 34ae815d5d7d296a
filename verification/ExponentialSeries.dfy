/**
 The natural exponential by its Taylor series, and its inverse by the series 2 * (z + z^3 / 3 + ...) at
 z = (a - 1) / (a + 1): both bracketed, however many terms are taken.
 */
module ExponentialSeries {
  import opened RealErrors
  import opened RoundedPowers
  import opened NaturalExponential

  // ---------------------------------------------------------------- the Taylor series

  /** The n-th term of the exponential series at r. */
  ghost function TaylorTerm(r: real, n: nat): real {
    if n == 0 then 1.0 else Times(TaylorTerm(r, n - 1), r / n as real)
  }

  ghost function TaylorSum(r: real, n: nat): real {
    if n == 0 then 1.0 else TaylorSum(r, n - 1) + TaylorTerm(r, n)
  }

  lemma {:induction false} TermsPositive(r: real, n: nat)
    requires r >= 0.0
    ensures TaylorTerm(r, n) >= 0.0 && TaylorSum(r, n) >= 1.0
  {
    if n > 0 {
      TermsPositive(r, n - 1);
      TimesMono(0.0, TaylorTerm(r, n - 1), r / n as real);
    }
  }

  lemma TermTimes(r: real, n: nat)
    requires n > 0
    ensures n as real * TaylorTerm(r, n) == Times(TaylorTerm(r, n - 1), r)
  {
    var nr := n as real;
    assert r / nr * nr == r;
    assert nr * Times(TaylorTerm(r, n - 1), r / nr) == Times(TaylorTerm(r, n - 1), r / nr * nr);
  }

  /** The slope of a term is the term before it. */
  ghost predicate TermSlope(x: real, h: real, n: nat)
    requires n > 0
  {
    Times(h, TaylorTerm(x, n - 1)) <= TaylorTerm(x + h, n) - TaylorTerm(x, n) <= Times(h, TaylorTerm(x + h, n - 1))
  }

  lemma FirstTerms(x: real, h: real)
    ensures TermSlope(x, h, 1)
  {
    assert TaylorTerm(x, 1) == Times(TaylorTerm(x, 0), x / 1.0) == x;
    assert TaylorTerm(x + h, 1) == Times(TaylorTerm(x + h, 0), (x + h) / 1.0) == x + h;
  }

  lemma {:induction false} TermGrowth(x: real, h: real, n: nat)
    requires x >= 0.0 && h >= 0.0 && n > 0
    ensures TermSlope(x, h, n)
  {
    if n == 1 {
      FirstTerms(x, h);
    } else {
      var m, y := n - 1, x + h;
      TermGrowth(x, h, m);
      TermsPositive(x, m - 1);
      TermsPositive(y, m - 1);
      TermTimes(x, m);
      TermTimes(y, m);
      TermTimes(x, n);
      TermTimes(y, n);
      TermUp(x, h, m as real, TaylorTerm(x, m - 1), TaylorTerm(y, m - 1), TaylorTerm(x, m), TaylorTerm(y, m),
             TaylorTerm(x, n), TaylorTerm(y, n));
    }
  }

  /** One term further: m * t is a * x and m * u is b * (x + h), and the slope of t has been a to b. */
  lemma TermUp(x: real, h: real, m: real, a: real, b: real, t: real, u: real, v: real, w: real)
    requires x >= 0.0 && h >= 0.0 && m >= 1.0 && a >= 0.0 && b >= 0.0
    requires m * t == Times(a, x) && m * u == Times(b, x + h)
    requires (m + 1.0) * v == Times(t, x) && (m + 1.0) * w == Times(u, x + h)
    requires Times(h, a) <= u - t <= Times(h, b)
    ensures Times(h, t) <= w - v <= Times(h, u)
  {
    ProductChange(t, u, x, h);
    SlopeLow(x, h, 1.0, a, m * t, u - t);
    SlopeHigh(x, h, 1.0, b, m * u, u - t);
    Scale(h, m, t);
    Scale(h, m, u);
    OneMore(m, Times(h, t));
    OneMore(m, Times(h, u));
    assert (m + 1.0) * (w - v) == (m + 1.0) * w - (m + 1.0) * v;
    Cancel(m + 1.0, Times(h, t), w - v);
    Cancel(m + 1.0, w - v, Times(h, u));
  }

  lemma Scale(h: real, m: real, t: real)
    ensures Times(h, m * t) == m * Times(h, t)
  {
  }

  lemma ProductAtLeastZero(a: real, b: real, c: real)
    requires a >= 0.0 && b >= 0.0 && c >= 0.0
    ensures a * b * c >= 0.0
  {
    TimesMono(0.0, a, b);
    TimesMono(0.0, a * b, c);
  }

  lemma Cancel(k: real, a: real, b: real)
    requires k > 0.0 && k * a <= k * b
    ensures a <= b
  {
    if b < a {
      RealMulMono(b, a, k);
    }
  }

  lemma Distribute(h: real, a: real, b: real)
    ensures Times(h, a + b) == Times(h, a) + Times(h, b)
  {
  }

  ghost predicate SumSlope(x: real, h: real, n: nat)
    requires n > 0
  {
    Times(h, TaylorSum(x, n - 1)) <= TaylorSum(x + h, n) - TaylorSum(x, n) <= Times(h, TaylorSum(x + h, n - 1))
  }

  lemma FirstSlope(x: real, h: real)
    ensures SumSlope(x, h, 1)
  {
    assert TaylorTerm(x, 1) == Times(TaylorTerm(x, 0), x / 1.0) == x;
    assert TaylorTerm(x + h, 1) == Times(TaylorTerm(x + h, 0), (x + h) / 1.0) == x + h;
    assert TaylorSum(x, 1) == TaylorSum(x, 0) + TaylorTerm(x, 1);
    assert TaylorSum(x + h, 1) == TaylorSum(x + h, 0) + TaylorTerm(x + h, 1);
  }

  lemma {:induction false} SumGrowth(x: real, h: real, n: nat)
    requires x >= 0.0 && h >= 0.0 && n > 0
    ensures SumSlope(x, h, n)
  {
    if n == 1 {
      FirstSlope(x, h);
    } else {
      var m := n - 1;
      TermGrowth(x, h, n);
      SumGrowth(x, h, m);
      Distribute(h, TaylorSum(x, m - 1), TaylorTerm(x, m));
      Distribute(h, TaylorSum(x + h, m - 1), TaylorTerm(x + h, m));
    }
  }

  /** The sum of n terms grows at most as the exponential. */
  lemma SumStep(x: real, h: real, n: nat)
    requires 0.0 <= x && 0.0 <= h && x + h <= 0.5 && n > 0
    ensures TaylorSum(x + h, n) <= Times(TaylorSum(x, n), 1.0 + h + 2.0 * (h * h))
  {
    SumGrowth(x, h, n);
    TermsPositive(x + h, n);
    TermsPositive(x, n);
    var s, u := TaylorSum(x, n), TaylorSum(x + h, n);
    TimesMono(TaylorSum(x + h, n - 1), u, h);
    TimesSymmetric(h, TaylorSum(x + h, n - 1));
    assert u - s <= Times(u, h);
    FromInverse(s, u, h);
  }

  lemma FromInverse(s: real, u: real, h: real)
    requires u - s <= Times(u, h) && 0.0 <= h <= 0.5 && s >= 0.0
    ensures u <= Times(s, 1.0 + h + 2.0 * (h * h))
  {
    var k := 1.0 + h + 2.0 * (h * h);
    assert k >= 0.0;
    assert Times(u, 1.0 - h) <= s;
    TimesMono(Times(u, 1.0 - h), s, k);
    assert (1.0 - h) * k == 1.0 + h * h * (1.0 - 2.0 * h);
    ProductAtLeastZero(h, h, 1.0 - 2.0 * h);
    assert Times(Times(u, 1.0 - h), k) == Times(u, (1.0 - h) * k);
    if u >= 0.0 {
      TimesMono(1.0, (1.0 - h) * k, u);
      TimesSymmetric(u, (1.0 - h) * k);
    } else {
      TimesMono(0.0, s, k);
    }
  }

  /** With twice the next term on top, it grows at least as the exponential. */
  ghost function TaylorTop(r: real, n: nat): real {
    TaylorSum(r, n) + 2.0 * TaylorTerm(r, n + 1)
  }

  lemma NextTermHalf(x: real, n: nat)
    requires 0.0 <= x <= 0.5
    ensures 0.0 <= 2.0 * TaylorTerm(x, n + 1) <= TaylorTerm(x, n)
  {
    var t, v := TaylorTerm(x, n), TaylorTerm(x, n + 1);
    TermsPositive(x, n);
    TermsPositive(x, n + 1);
    TermTimes(x, n + 1);
    TimesMono(x, 0.5, t);
    TimesSymmetric(t, x);
    TimesMono(1.0, (n + 1) as real, v);
  }

  lemma TopStep(x: real, h: real, n: nat)
    requires 0.0 <= x && 0.0 <= h && x + h <= 0.5 && n > 0
    ensures TaylorTop(x + h, n) >= Times(TaylorTop(x, n), 1.0 + h) && TaylorTop(x, n) >= 0.0
  {
    SumGrowth(x, h, n);
    TermGrowth(x, h, n + 1);
    TermsPositive(x, n);
    NextTermHalf(x, n);
    TopFromSlopes(h, TaylorSum(x, n - 1), TaylorTerm(x, n), TaylorTerm(x, n + 1), TaylorTop(x + h, n) - TaylorTop(x, n));
  }

  lemma TopFromSlopes(h: real, s: real, t: real, v: real, d: real)
    requires h >= 0.0 && 2.0 * v <= t && d >= Times(h, s) + 2.0 * Times(h, t)
    ensures Times(s + t + 2.0 * v, 1.0 + h) <= s + t + 2.0 * v + d
  {
    TimesMono(2.0 * v, t, h);
    TimesSymmetric(h, t);
    Distribute(h, s, t);
    assert Times(s + t + 2.0 * v, 1.0 + h) == s + t + 2.0 * v + Times(h, s + t) + Times(2.0 * v, h);
  }

  /** However many terms are taken, the exponential lies between their sum and the sum with twice the next term. */
  lemma TaylorTheorem(e: real -> real, r: real, n: nat)
    requires IsExponential(e) && 0.0 <= r <= 0.5 && n > 0
    ensures TaylorSum(r, n) <= e(r) <= TaylorTop(r, n)
  {
    TaylorBelow(e, r, n);
    TaylorAbove(e, r, n);
  }

  lemma TaylorAtZero(n: nat)
    ensures TaylorTerm(0.0, n) == (if n == 0 then 1.0 else 0.0) && TaylorSum(0.0, n) == 1.0
  {
    if n > 0 {
      TaylorAtZero(n - 1);
    }
  }

  lemma TaylorBelow(e: real -> real, r: real, n: nat)
    requires IsExponential(e) && 0.0 <= r <= 0.5 && n > 0
    ensures TaylorSum(r, n) <= e(r)
  {
    var f, g := (x: real) => TaylorSum(x, n), Identity();
    forall x: real | 0.0 <= x <= r ensures f(x) >= 0.0 {
      TermsPositive(x, n);
    }
    forall x: real, h: real | 0.0 <= x && 0.0 <= h && x + h <= r ensures StepAtMost(f, g, 2.0, x, h) {
      SumStep(x, h, n);
      assert 1.0 + (g(x + h) - g(x)) + 2.0 * (h * h) == 1.0 + h + 2.0 * (h * h);
    }
    ComparisonAbove(e, f, g, 2.0, r);
    TaylorAtZero(n);
  }

  lemma TaylorAbove(e: real -> real, r: real, n: nat)
    requires IsExponential(e) && 0.0 <= r <= 0.5 && n > 0
    ensures e(r) <= TaylorTop(r, n)
  {
    var f, g := (x: real) => TaylorTop(x, n), Identity();
    forall x: real | 0.0 <= x <= r ensures f(x) >= 0.0 {
      TermsPositive(x, n);
      TermsPositive(x, n + 1);
    }
    forall x: real, h: real | 0.0 <= x && 0.0 <= h && x + h <= r ensures StepAtLeast(f, g, 1.0, x, h) {
      TopStep(x, h, n);
      assert 1.0 + (g(x + h) - g(x)) == 1.0 + h;
    }
    ComparisonBelow(e, f, g, 1.0, r);
    TaylorAtZero(n);
    TaylorAtZero(n + 1);
  }

  // ---------------------------------------------------------------- the series of the logarithm

  /** z ^ (2 * k + 1). */
  ghost function OddPower(z: real, k: nat): real {
    if k == 0 then z else Times(OddPower(z, k - 1), z * z)
  }

  /** z + z^3 / 3 + ... + z^(2 * k + 1) / (2 * k + 1). */
  ghost function OddSum(z: real, k: nat): real {
    if k == 0 then z else OddSum(z, k - 1) + OddPower(z, k) / (2 * k + 1) as real
  }

  /** 1 + z^2 + ... + z^(2 * k), the slope of that sum. */
  ghost function EvenSum(z: real, k: nat): real {
    if k == 0 then 1.0 else EvenSum(z, k - 1) + EvenPower(z, k)
  }

  ghost function EvenPower(z: real, k: nat): real {
    if k == 0 then 1.0 else Times(EvenPower(z, k - 1), z * z)
  }

  lemma {:induction false} PowersOf(z: real, k: nat)
    requires z >= 0.0
    ensures EvenPower(z, k) >= 0.0 && OddPower(z, k) == Times(z, EvenPower(z, k)) && OddPower(z, k) >= 0.0
    ensures EvenSum(z, k) >= 1.0
  {
    if k > 0 {
      PowersOf(z, k - 1);
      TimesMono(0.0, z * z, EvenPower(z, k - 1));
      TimesSymmetric(EvenPower(z, k - 1), z * z);
      TimesAssociative(z, EvenPower(z, k - 1), z * z);
    }
    TimesMono(0.0, z, EvenPower(z, k));
  }

  lemma {:induction false} Geometric(z: real, k: nat)
    ensures Times(EvenSum(z, k), 1.0 - z * z) == 1.0 - Times(EvenPower(z, k), z * z)
  {
    if k > 0 {
      Geometric(z, k - 1);
      var s, p, q := EvenSum(z, k - 1), EvenPower(z, k), z * z;
      assert Times(s + p, 1.0 - q) == Times(s, 1.0 - q) + p - Times(p, q);
    }
  }

  /** x and x + h to the power n, and to the power before: the slope is n times the power before. */
  ghost predicate PowerSlope(h: real, n: real, p: real, q: real, a: real, b: real) {
    n * Times(h, p) <= b - a <= n * Times(h, q)
  }

  lemma SlopeLow(x: real, h: real, n: real, p: real, a: real, d: real)
    requires x >= 0.0 && h >= 0.0 && n >= 0.0 && p >= 0.0 && a == Times(p, x) && d >= n * Times(h, p)
    ensures Times(d, x + h) >= n * Times(h, a)
  {
    TimesMono(n * Times(h, p), d, x + h);
    ProductAtLeastZero(h, h, p);
    TimesMono(0.0, n, h * h * p);
    assert Times(n * Times(h, p), x + h) == n * (h * (p * x)) + n * (h * h * p);
  }

  lemma SlopeHigh(x: real, h: real, n: real, q: real, b: real, d: real)
    requires x >= 0.0 && h >= 0.0 && n >= 0.0 && q >= 0.0 && b == Times(q, x + h) && d <= n * Times(h, q)
    ensures Times(d, x) <= n * Times(h, b)
  {
    TimesMono(d, n * Times(h, q), x);
    ProductAtLeastZero(h, h, q);
    TimesMono(0.0, n, h * h * q);
    assert n * Times(h, b) == n * (h * (q * x)) + n * (h * h * q);
    assert Times(n * Times(h, q), x) == n * (h * (q * x));
  }

  lemma ProductChange(a: real, b: real, x: real, h: real)
    ensures Times(b, x + h) - Times(a, x) == Times(b - a, x + h) + Times(h, a) == Times(b - a, x) + Times(h, b)
  {
  }

  /** One power further up: p and q become a and b, and those a * x and b * (x + h). */
  lemma SlopeUp(x: real, h: real, n: real, p: real, q: real, a: real, b: real)
    requires x >= 0.0 && h >= 0.0 && n >= 0.0 && p >= 0.0 && q >= 0.0 && a == Times(p, x) && b == Times(q, x + h)
    requires PowerSlope(h, n, p, q, a, b)
    ensures PowerSlope(h, n + 1.0, a, b, Times(a, x), Times(b, x + h))
  {
    ProductChange(a, b, x, h);
    SlopeLow(x, h, n, p, a, b - a);
    SlopeHigh(x, h, n, q, b, b - a);
    OneMore(n, Times(h, a));
    OneMore(n, Times(h, b));
  }

  lemma OneMore(n: real, u: real)
    ensures (n + 1.0) * u == n * u + u
  {
  }

  ghost predicate OddSlope(x: real, h: real, k: nat) {
    PowerSlope(h, (2 * k + 1) as real, EvenPower(x, k), EvenPower(x + h, k), OddPower(x, k), OddPower(x + h, k))
  }

  lemma {:induction false} OddGrowth(x: real, h: real, k: nat)
    requires x >= 0.0 && h >= 0.0
    ensures OddSlope(x, h, k)
  {
    if k > 0 {
      var y, n := x + h, (2 * k - 1) as real;
      OddGrowth(x, h, k - 1);
      PowersOf(x, k - 1);
      PowersOf(y, k - 1);
      var p, q, a, b := EvenPower(x, k - 1), EvenPower(y, k - 1), OddPower(x, k - 1), OddPower(y, k - 1);
      TimesSymmetric(x, p);
      TimesSymmetric(y, q);
      SlopeUp(x, h, n, p, q, a, b);
      TimesMono(0.0, x, p);
      TimesMono(0.0, y, q);
      SlopeUp(x, h, n + 1.0, a, b, Times(a, x), Times(b, y));
      SquareUp(a, p, x);
      SquareUp(b, q, y);
    }
  }

  lemma SquareUp(a: real, p: real, x: real)
    requires a == Times(p, x)
    ensures Times(a, x) == Times(p, x * x) && Times(Times(a, x), x) == Times(a, x * x)
  {
  }

  ghost predicate OddSumSlope(x: real, h: real, k: nat) {
    Times(h, EvenSum(x, k)) <= OddSum(x + h, k) - OddSum(x, k) <= Times(h, EvenSum(x + h, k))
  }

  lemma {:induction false} OddSumGrowth(x: real, h: real, k: nat)
    requires x >= 0.0 && h >= 0.0
    ensures OddSumSlope(x, h, k)
  {
    OddGrowth(x, h, k);
    if k > 0 {
      OddSumGrowth(x, h, k - 1);
      DividedSlope(h, (2 * k + 1) as real, EvenPower(x, k), EvenPower(x + h, k), OddPower(x, k), OddPower(x + h, k));
      Distribute(h, EvenSum(x, k - 1), EvenPower(x, k));
      Distribute(h, EvenSum(x + h, k - 1), EvenPower(x + h, k));
    }
  }

  lemma DividedSlope(h: real, n: real, p: real, q: real, a: real, b: real)
    requires n > 0.0 && PowerSlope(h, n, p, q, a, b)
    ensures Times(h, p) <= b / n - a / n <= Times(h, q)
  {
    var d := b / n - a / n;
    assert b / n * n == b && a / n * n == a;
    assert n * d == b - a;
    Cancel(n, Times(h, p), d);
    Cancel(n, d, Times(h, q));
  }

  lemma {:induction false} EvenAtMost(z: real, k: nat)
    requires 0.0 <= z <= 0.5
    ensures 0.0 <= EvenPower(z, k) <= 1.0 && 1.0 <= EvenSum(z, k) <= 2.0 && 0.0 <= z * z <= 0.25
  {
    PowersOf(z, k);
    TimesMono(z, 0.5, z);
    TimesMono(z, 0.5, 0.5);
    SmallPower(z, k);
    Geometric(z, k);
    TimesMono(0.0, z * z, EvenPower(z, k));
    TimesSymmetric(z * z, EvenPower(z, k));
    TimesMono(0.5, 1.0 - z * z, EvenSum(z, k));
    TimesSymmetric(EvenSum(z, k), 1.0 - z * z);
  }

  lemma {:induction false} SmallPower(z: real, k: nat)
    requires 0.0 <= z * z <= 1.0 && z >= 0.0
    ensures 0.0 <= EvenPower(z, k) <= 1.0
  {
    if k > 0 {
      SmallPower(z, k - 1);
      UnitProduct(EvenPower(z, k - 1), z * z);
    }
  }

  /** The number whose ratio (a - 1) / (a + 1) is z. */
  ghost function FromRatio(z: real): real
    requires z < 1.0
  {
    (1.0 + z) / (1.0 - z)
  }

  lemma FromRatioTimes(z: real)
    requires -1.0 <= z < 1.0
    ensures Times(FromRatio(z), 1.0 - z) == 1.0 + z && FromRatio(z) >= 0.0
  {
    var f := FromRatio(z);
    assert f * (1.0 - z) == 1.0 + z;
    if f < 0.0 {
      RealMulMono(f, 0.0, 1.0 - z);
    }
  }

  /** The sum of the series, doubled. */
  ghost function LogSum(z: real, k: nat): real {
    2.0 * OddSum(z, k)
  }

  /** With four times the next term on top. */
  ghost function LogTop(z: real, k: nat): real {
    LogSum(z, k) + 4.0 * (OddPower(z, k + 1) / (2 * k + 3) as real)
  }

  lemma PositiveTimes(a: real, b: real)
    requires a > 0.0 && b > 0.0
    ensures Times(a, b) > 0.0
  {
    RealMulMono(0.0, a, b);
  }

  /** a and c are 1 + x and 1 - x; a step of h takes a / c to (a + h) / (c - h). */
  lemma StepWeights(a: real, c: real, h: real, f: real, f': real, t: real)
    requires a + c == 2.0 && Times(f, c) == a && Times(f', c - h) == a + h
    ensures Times(f', Times(c, c - h)) == Times(a, c - h) + 2.0 * h
    ensures Times(Times(f, 1.0 + t), Times(c, c - h)) == Times(a, c - h) + Times(Times(a, c - h), t)
  {
    assert Times(f', Times(c, c - h)) == Times(Times(f', c - h), c);
    assert Times(a + h, c) == Times(a, c - h) + Times(h, a + c);
    assert Times(Times(f, 1.0 + t), Times(c, c - h)) == Times(Times(Times(f, c), c - h), 1.0 + t);
  }

  lemma RatioStepBelow(a: real, c: real, h: real, f: real, f': real, t: real)
    requires a + c == 2.0 && a >= 0.0 && h >= 0.0 && c - h > 0.0 && Times(f, c) == a && Times(f', c - h) == a + h
    requires Times(t, Times(a + h, c - h)) <= 2.0 * h && t >= 0.0
    ensures f' >= Times(f, 1.0 + t)
  {
    StepWeights(a, c, h, f, f', t);
    PositiveTimes(c, c - h);
    TimesMono(a, a + h, c - h);
    TimesMono(Times(a, c - h), Times(a + h, c - h), t);
    TimesSymmetric(t, Times(a + h, c - h));
    ByWeight(Times(f, 1.0 + t), f', Times(c, c - h));
  }

  lemma WeightSplit(a: real, b: real, h: real, d: real)
    ensures Times(d, Times(a, b + h)) == Times(Times(a, b), d) + Times(Times(d, h), a)
  {
  }

  lemma WeightMoved(a: real, b: real, q: real)
    ensures Times(Times(b, q), a) == Times(Times(a, b), q)
  {
  }

  lemma QuadraticShare(b: real, h: real, d: real)
    requires b >= 0.5 && h >= 0.0 && d <= 8.0 * h
    ensures Times(d, h) <= Times(b, 16.0 * (h * h))
  {
    TimesMono(d, 8.0 * h, h);
    TimesMono(0.0, h, h);
    TimesMono(0.5, b, 16.0 * (h * h));
  }

  lemma EnoughGrowth(a: real, b: real, h: real, d: real)
    requires a >= 0.0 && b >= 0.5 && h >= 0.0 && d <= 8.0 * h
    requires Times(d, Times(a, b + h)) >= 2.0 * h
    ensures Times(Times(a, b), d + 16.0 * (h * h)) >= 2.0 * h
  {
    var q := 16.0 * (h * h);
    QuadraticShare(b, h, d);
    TimesMono(Times(d, h), Times(b, q), a);
    WeightSplit(a, b, h, d);
    WeightMoved(a, b, q);
    Distribute(Times(a, b), d, q);
  }

  lemma RatioStepAbove(a: real, c: real, h: real, f: real, f': real, d: real)
    requires a + c == 2.0 && a >= 0.0 && h >= 0.0 && c - h >= 0.5 && Times(f, c) == a && Times(f', c - h) == a + h
    requires Times(d, Times(a, c)) >= 2.0 * h && d <= 8.0 * h
    ensures f' <= Times(f, 1.0 + (d + 16.0 * (h * h)))
  {
    var t := d + 16.0 * (h * h);
    EnoughGrowth(a, c - h, h, d);
    StepWeights(a, c, h, f, f', t);
    PositiveTimes(c, c - h);
    ByWeight(f', Times(f, 1.0 + t), Times(c, c - h));
  }

  lemma DifferenceOfSquares(z: real)
    ensures Times(1.0 + z, 1.0 - z) == 1.0 - z * z
  {
  }

  lemma LogSumSlope(x: real, h: real, k: nat)
    requires 0.0 <= x && 0.0 <= h && x + h <= 0.5
    ensures var d := LogSum(x + h, k) - LogSum(x, k);
            && 0.0 <= d <= 4.0 * h
            && 2.0 * Times(h, EvenSum(x, k)) <= d <= 2.0 * Times(h, EvenSum(x + h, k))
  {
    var y := x + h;
    OddSumGrowth(x, h, k);
    EvenAtMost(x, k);
    EvenAtMost(y, k);
    TimesMono(0.0, EvenSum(x, k), h);
    TimesMono(EvenSum(y, k), 2.0, h);
    TimesSymmetric(h, EvenSum(x, k));
    TimesSymmetric(h, EvenSum(y, k));
  }

  /** The sum of the series grows at most as the logarithm. */
  lemma LogSumStep(x: real, h: real, k: nat)
    requires 0.0 <= x && 0.0 <= h && x + h <= 0.5
    ensures FromRatio(x + h) >= Times(FromRatio(x), 1.0 + (LogSum(x + h, k) - LogSum(x, k)))
  {
    var y, d := x + h, LogSum(x + h, k) - LogSum(x, k);
    LogSumSlope(x, h, k);
    EvenAtMost(y, k);
    Geometric(y, k);
    TimesMono(0.0, y * y, EvenPower(y, k));
    TimesSymmetric(EvenPower(y, k), y * y);
    SlopeOfSum(h, d, EvenSum(y, k), 1.0 - y * y);
    DifferenceOfSquares(y);
    FromRatioTimes(x);
    FromRatioTimes(y);
    RatioStepBelow(1.0 + x, 1.0 - x, h, FromRatio(x), FromRatio(y), d);
  }

  lemma SlopeOfSum(h: real, d: real, s: real, p: real)
    requires h >= 0.0 && d <= 2.0 * Times(h, s) && Times(s, p) <= 1.0 && p >= 0.0
    ensures Times(d, p) <= 2.0 * h
  {
    TimesMono(d, 2.0 * Times(h, s), p);
    TimesMono(Times(s, p), 1.0, h);
    assert Times(2.0 * Times(h, s), p) == 2.0 * Times(Times(s, p), h);
  }

  lemma LogTopSlope(x: real, h: real, k: nat)
    requires 0.0 <= x && 0.0 <= h && x + h <= 0.5
    ensures var d := LogTop(x + h, k) - LogTop(x, k);
            2.0 * Times(h, EvenSum(x, k)) + 4.0 * Times(h, EvenPower(x, k + 1)) <= d <= 8.0 * h
  {
    var y := x + h;
    LogSumSlope(x, h, k);
    OddGrowth(x, h, k + 1);
    DividedSlope(h, (2 * k + 3) as real, EvenPower(x, k + 1), EvenPower(y, k + 1), OddPower(x, k + 1), OddPower(y, k + 1));
    EvenAtMost(y, k + 1);
    TimesMono(EvenPower(y, k + 1), 1.0, h);
    TimesSymmetric(h, EvenPower(y, k + 1));
  }

  lemma TopSlope(h: real, s: real, p: real, q: real, d: real)
    requires h >= 0.0 && p >= 0.0 && 0.0 <= q <= 0.25 && Times(s, 1.0 - q) == 1.0 - p
    requires d >= 2.0 * Times(h, s) + 4.0 * Times(h, p)
    ensures Times(d, 1.0 - q) >= 2.0 * h
  {
    TimesMono(2.0 * Times(h, s) + 4.0 * Times(h, p), d, 1.0 - q);
    TimesMono(0.0, h, p);
    TimesMono(0.75, 1.0 - q, Times(h, p));
    TimesSymmetric(1.0 - q, Times(h, p));
    assert Times(Times(h, s), 1.0 - q) == Times(h, 1.0 - p) == h - Times(h, p);
    assert Times(2.0 * Times(h, s) + 4.0 * Times(h, p), 1.0 - q)
        == 2.0 * Times(Times(h, s), 1.0 - q) + 4.0 * Times(Times(h, p), 1.0 - q);
  }

  /** With the next term on top it grows at least as the logarithm, but for a quadratic error. */
  lemma LogTopStep(x: real, h: real, k: nat)
    requires 0.0 <= x && 0.0 <= h && x + h <= 0.5
    ensures FromRatio(x + h) <= Times(FromRatio(x), 1.0 + (LogTop(x + h, k) - LogTop(x, k)) + 16.0 * (h * h))
  {
    var d := LogTop(x + h, k) - LogTop(x, k);
    LogTopSlope(x, h, k);
    EvenAtMost(x, k);
    EvenAtMost(x, k + 1);
    Geometric(x, k);
    TopSlope(h, EvenSum(x, k), EvenPower(x, k + 1), x * x, d);
    DifferenceOfSquares(x);
    FromRatioTimes(x);
    FromRatioTimes(x + h);
    RatioStepAbove(1.0 + x, 1.0 - x, h, FromRatio(x), FromRatio(x + h), d);
  }

  lemma LogAtZero(k: nat)
    ensures LogSum(0.0, k) == 0.0 && LogTop(0.0, k) == 0.0 && FromRatio(0.0) == 1.0
  {
    OddAtZero(k);
    OddAtZero(k + 1);
  }

  lemma OddAtZero(k: nat)
    ensures OddPower(0.0, k) == 0.0 && OddSum(0.0, k) == 0.0
  {
    if k > 0 {
      OddAtZero(k - 1);
    }
  }

  lemma LogBelow(e: real -> real, z: real, k: nat)
    requires IsExponential(e) && 0.0 <= z <= 0.5
    ensures e(LogSum(z, k)) <= FromRatio(z)
  {
    var f, g := (x: real) => if x < 1.0 then FromRatio(x) else 0.0, (x: real) => LogSum(x, k);
    forall x: real | 0.0 <= x <= z ensures f(x) >= 0.0 {
      FromRatioTimes(x);
    }
    forall x: real, h: real | 0.0 <= x && 0.0 <= h && x + h <= z ensures StepAtLeast(f, g, 4.0, x, h) {
      LogSumStep(x, h, k);
      LogSumSlope(x, h, k);
    }
    ComparisonBelow(e, f, g, 4.0, z);
    LogAtZero(k);
  }

  lemma LogAbove(e: real -> real, z: real, k: nat)
    requires IsExponential(e) && 0.0 <= z <= 0.5
    ensures FromRatio(z) <= e(LogTop(z, k))
  {
    var f, g := (x: real) => if x < 1.0 then FromRatio(x) else 0.0, (x: real) => LogTop(x, k);
    forall x: real | 0.0 <= x <= z ensures f(x) >= 0.0 {
      FromRatioTimes(x);
    }
    forall x: real, h: real | 0.0 <= x && 0.0 <= h && x + h <= z ensures StepAtMost(f, g, 16.0, x, h) {
      LogTopStep(x, h, k);
    }
    ComparisonAbove(e, f, g, 16.0, z);
    LogAtZero(k);
  }

  /** However many terms are taken: twice their sum is at most the logarithm, and with four times the next at least. */
  lemma LogarithmTheorem(e: real -> real, z: real, k: nat)
    requires IsExponential(e) && 0.0 <= z <= 0.5
    ensures e(LogSum(z, k)) <= FromRatio(z) <= e(LogTop(z, k))
  {
    LogBelow(e, z, k);
    LogAbove(e, z, k);
  }
}
