/**
 What the Balancer V1 power series computes while the pool guard keeps the base within half of one:
 it stops after at most 34 iterations, no subtraction underflows, and it agrees with the binomial
 series of (base / BONE) ^ (exp / BONE), taken to any greater length, to BPOW_PRECISION.
 */
module BalancerV1Series {
  import opened Wrappers
  import opened Truncating
  import opened BalancerV1Math
  import opened RealErrors

  const MAX_ITERATIONS := 34

  ghost predicate Guarded(a: int, base: int) {
    0 <= a < BONE && 2 * (BONE / 3) <= base <= BONE + BONE / 2
  }

  function Distance(base: int): int {
    if base >= BONE then base - BONE else BONE - base
  }

  ghost function Pow2(n: nat): int {
    if n == 0 then 1 else 2 * Pow2(n - 1)
  }

  // ---------------------------------------------------------------- the exact series

  /** The factor from term n - 1 to term n of the binomial series, as an exact number. */
  ghost function Ratio(a: int, base: int, n: nat): real
    requires n >= 1
  {
    ((a - (n - 1) * BONE) * (base - BONE)) as real / (n * BONE * BONE) as real
  }

  /** BONE times the n-th term of (1 + d)^e, where d = base / BONE - 1 and e = a / BONE. */
  ghost function ExactTerm(a: int, base: int, n: nat): real {
    if n == 0 then BONE as real else Times(ExactTerm(a, base, n - 1), Ratio(a, base, n))
  }

  ghost function PartialSum(a: int, base: int, n: nat): real {
    if n == 0 then BONE as real else PartialSum(a, base, n - 1) + ExactTerm(a, base, n)
  }

  lemma RatioMagnitude(k: nat, x: nat, n: nat, u: nat)
    requires k <= n * u && 2 * x <= u
    ensures 2 * (k * x) <= n * u * u
  {
    MulMono(k, n * u, x);
    MulMono(2 * x, u, n * u);
    Regroup(n * u, x);
  }

  lemma Regroup(w: int, x: int)
    ensures 2 * (w * x) == 2 * x * w
  {
  }

  lemma SignedMagnitude(c: int, d: int)
    ensures var k, x := if c >= 0 then c else -c, if d >= 0 then d else -d;
            c * d == k * x || c * d == -(k * x)
  {
  }

  lemma RatioBound(a: int, base: int, n: nat)
    requires Guarded(a, base) && n >= 1
    ensures Abs(Ratio(a, base, n)) <= 0.5
  {
    CoefficientBound(a, n);
    RatioCore(a - (n - 1) * BONE, base - BONE, n);
  }

  lemma RatioCore(c: int, d: int, n: nat)
    requires n >= 1 && -(n * BONE) <= c <= n * BONE && -BONE <= 2 * d <= BONE
    ensures Abs((c * d) as real / (n * BONE * BONE) as real) <= 0.5
  {
    RatioMagnitude(if c >= 0 then c else -c, if d >= 0 then d else -d, n, BONE);
    SignedMagnitude(c, d);
    RealQuotient(c * d, n * BONE * BONE);
  }

  lemma ExactTermHalves(a: int, base: int, n: nat)
    requires Guarded(a, base) && n >= 1
    ensures Abs(ExactTerm(a, base, n)) <= Abs(ExactTerm(a, base, n - 1)) / 2.0
  {
    var e, r := ExactTerm(a, base, n - 1), Ratio(a, base, n);
    RatioBound(a, base, n);
    HalvedProduct(e, r);
    assert ExactTerm(a, base, n) == Times(e, r);
  }

  /** Later terms of the exact series add up to no more than the term they follow. */
  lemma {:induction false} TailBound(a: int, base: int, n: nat, m: nat)
    requires Guarded(a, base) && n <= m
    ensures Abs(PartialSum(a, base, m) - PartialSum(a, base, n)) <= Abs(ExactTerm(a, base, n)) - Abs(ExactTerm(a, base, m))
    decreases m
  {
    if n < m {
      TailBound(a, base, n, m - 1);
      ExactTermHalves(a, base, m);
    }
  }

  // ---------------------------------------------------------------- the rounded series

  ghost function Signed(l: Loop): int {
    if l.negative then -l.term else l.term
  }

  /** Terms shrink geometrically: each is at most half of the one before, up to the rounding. */
  ghost predicate Shrinking(base: int, l: Loop) {
    if l.i == 1 then l == FirstLoop
    else l.i >= 2 && 1 <= l.term <= Distance(base) && (l.term - 1) * Pow2(l.i - 2) <= BONE / 2 - 1
  }

  ghost predicate SumBounded(base: int, l: Loop) {
    if l.i == 1 then l == FirstLoop
    else if base < BONE then
      && l.negative
      && 2 * base - BONE + l.term - (l.i - 2) <= l.sum <= BONE
    else if l.negative then BONE <= l.sum <= base - l.term
    else BONE + l.term <= l.sum <= base
  }

  ghost predicate TermAccurate(a: int, base: int, l: Loop) {
    l.i >= 1 && Near(Signed(l) as real, ExactTerm(a, base, l.i - 1), if l.i == 1 then 0.0 else 2.0)
  }

  ghost predicate SumAccurate(a: int, base: int, l: Loop) {
    l.i >= 1 && Near(l.sum as real, PartialSum(a, base, l.i - 1), 2.0 * (l.i - 1) as real)
  }

  ghost predicate Invariant(a: int, base: int, l: Loop) {
    && l.i <= MAX_ITERATIONS + 1
    && Shrinking(base, l) && SumBounded(base, l)
    && TermAccurate(a, base, l) && SumAccurate(a, base, l)
  }

  lemma HalvedProductBound(term: nat, m: nat, k: nat, u: int, one: nat)
    requires one > 0 && 2 * m <= k * one && 2 * (u * one) <= 2 * (term * m) + one
    ensures 2 * u <= term * k + 1
  {
    MulMono(2 * m, k * one, term);
    assert 2 * m * term == 2 * (term * m);
    assert (term * k + 1) * one == k * one * term + one;
    assert 2 * u * one == 2 * (u * one);
    CancelRight(2 * u, term * k + 1, one);
  }

  lemma HalvedQuotientBound(t: int, i: nat, term: nat, u: int)
    requires i >= 1 && term >= 1 && 2 * (t * i) <= 2 * u + i && 2 * u <= term * (i - 1) + 1
    ensures 2 * t <= term + 1
  {
    assert (term + 1) * i == term * (i - 1) + term + i;
    assert 2 * t * i == 2 * (t * i);
    CancelRight(2 * t, term + 1, i);
  }

  lemma HalvingArithmetic(i: int, term: int, m: int, u: int, t: int)
    requires i >= 2 && term >= 1 && 0 <= 2 * m <= (i - 1) * BONE
    requires 2 * (u * BONE) <= 2 * (term * m) + BONE
    requires 2 * (t * i) <= 2 * u + i
    ensures 2 * t <= term + 1
  {
    HalvedProductBound(term, m, i - 1, u, BONE);
    HalvedQuotientBound(t, i, term, u);
  }

  lemma HalfOfWhole(x: int, k: int)
    requires 2 * x <= BONE && 0 <= k
    ensures 2 * (k * x) <= k * BONE
  {
    MulMono(2 * x, BONE, k);
  }

  lemma TermHalves(a: int, x: int, i: int, term: int)
    requires 0 <= a < BONE && 0 <= x <= BONE / 2 && i >= 2 && term >= 1
    ensures NextTerm(a, x, i, term).Success? && 2 * NextTerm(a, x, i, term).value.0 <= term + 1
  {
    NextTermShape(a, x, i, term);
    InnerBound(a, x, i);
    HalfOfWhole(x, i - 1);
    var m := Bmul(Coefficient(a, i), x);
    BmulBracket(term, m);
    HalvingArithmetic(i, term, m, Bmul(term, m), NextTerm(a, x, i, term).value.0);
  }

  lemma FirstTerm(a: int, x: int)
    requires 0 <= a < BONE && 0 <= x <= BONE / 2
    ensures NextTerm(a, x, 1, BONE).Success? && NextTerm(a, x, 1, BONE).value.0 <= x
  {
    NextTermShape(a, x, 1, BONE);
    InnerBound(a, x, 1);
    BmulOne(Bmul(a, x));
  }

  lemma BmulOne(b: nat)
    ensures Bmul(BONE, b) == b
  {
    FloorAtLeast(BONE * b + BONE / 2, BONE, b);
    FloorBelow(BONE * b + BONE / 2, BONE, b + 1);
  }

  lemma NextTermBound(a: int, base: int, l: Loop)
    requires Guarded(a, base) && Shrinking(base, l) && l.term >= BPOW_PRECISION
    ensures NextTerm(a, Distance(base), l.i, l.term).Success?
    ensures 0 <= NextTerm(a, Distance(base), l.i, l.term).value.0 <= Distance(base)
    ensures l.i >= 2 ==> 2 * NextTerm(a, Distance(base), l.i, l.term).value.0 <= l.term + 1
  {
    NextTermShape(a, Distance(base), l.i, l.term);
    if l.i == 1 {
      FirstTerm(a, Distance(base));
    } else {
      TermHalves(a, Distance(base), l.i, l.term);
    }
  }

  lemma Pow2Positive(n: nat)
    ensures Pow2(n) >= 1
  {
  }

  lemma Pow2Mono(n: nat, m: nat)
    requires n <= m
    ensures Pow2(n) <= Pow2(m)
  {
  }

  /** A term that has not yet fallen below the precision belongs to an early iteration. */
  lemma FewIterations(base: int, l: Loop)
    requires Shrinking(base, l) && l.term >= BPOW_PRECISION
    ensures l.i <= MAX_ITERATIONS
  {
    if l.i > MAX_ITERATIONS {
      Pow2Mono(33, l.i - 2);
      assert Pow2(33) == 8_589_934_592 by {
        assert Pow2(4) == 16;
        assert Pow2(8) == 256;
        assert Pow2(12) == 4096;
        assert Pow2(16) == 65536;
        assert Pow2(20) == 1_048_576;
        assert Pow2(24) == 16_777_216;
        assert Pow2(28) == 268_435_456;
        assert Pow2(32) == 4_294_967_296;
      }
      MulMono(BPOW_PRECISION - 1, l.term - 1, Pow2(l.i - 2));
    }
  }

  lemma StepShrinks(base: int, l: Loop, t: int)
    requires Shrinking(base, l) && 1 <= t <= Distance(base) <= BONE / 2
    requires l.i >= 2 ==> 2 * t <= l.term + 1
    ensures t <= BONE / 2 && (t - 1) * Pow2(l.i - 1) <= BONE / 2 - 1
  {
    if l.i >= 2 {
      var p := Pow2(l.i - 2);
      Pow2Positive(l.i - 2);
      MulMono(2 * (t - 1), l.term - 1, p);
      assert (t - 1) * Pow2(l.i - 1) == 2 * (t - 1) * p;
    }
  }

  lemma SumStep(base: int, l: Loop, t: int)
    requires 2 * (BONE / 3) <= base <= BONE + BONE / 2
    requires SumBounded(base, l) && 1 <= l.i <= MAX_ITERATIONS && 1 <= l.term
    requires 1 <= t <= Distance(base) && (l.i >= 2 ==> 2 * t <= l.term + 1)
    ensures AddTerm(l, t, l.i >= 2, base < BONE).Success?
    ensures SumBounded(base, AddTerm(l, t, l.i >= 2, base < BONE).value)
  {
  }

  lemma StepBounded(a: int, base: int, l: Loop)
    requires Guarded(a, base) && Shrinking(base, l) && SumBounded(base, l) && l.term >= BPOW_PRECISION
    requires NextTerm(a, Distance(base), l.i, l.term).Success?
    requires NextTerm(a, Distance(base), l.i, l.term).value.0 != 0
    ensures NextTerm(a, Distance(base), l.i, l.term).value.1 <==> l.i >= 2
    ensures var l' := AddTerm(l, NextTerm(a, Distance(base), l.i, l.term).value.0, l.i >= 2, base < BONE);
            l'.Success? && Shrinking(base, l'.value) && SumBounded(base, l'.value)
  {
    NextTermShape(a, Distance(base), l.i, l.term);
    NextTermBound(a, base, l);
    FewIterations(base, l);
    var t := NextTerm(a, Distance(base), l.i, l.term).value.0;
    StepShrinks(base, l, t);
    SumStep(base, l, t);
  }

  lemma TermProductRounding(term: int, cx: int, m: int)
    requires term >= 0 && 2 * cx - BONE <= 2 * (m * BONE) <= 2 * cx + BONE
    ensures -(term * BONE) <= 2 * (term * m) * BONE - 2 * (term * cx) <= term * BONE
  {
    var e := 2 * (m * BONE) - 2 * cx;
    MulMono(-BONE, e, term);
    MulMono(e, BONE, term);
    assert e * term == 2 * (term * m) * BONE - 2 * (term * cx);
  }

  lemma RoundingArithmetic(i: int, term: int, cx: int, m: int, u: int, t: int)
    requires i >= 1 && term >= 0
    requires 2 * cx - BONE <= 2 * (m * BONE) <= 2 * cx + BONE
    requires 2 * (term * m) - BONE <= 2 * (u * BONE) <= 2 * (term * m) + BONE
    requires 2 * u - i <= 2 * (t * i) <= 2 * u + i
    ensures var err := 2 * (t * (i * BONE * BONE)) - 2 * (term * cx);
            -(term * BONE + BONE * BONE + i * BONE * BONE) <= err <= term * BONE + BONE * BONE + i * BONE * BONE
  {
    TermProductRounding(term, cx, m);
    assert (2 * (t * i) - 2 * u) * (BONE * BONE) == 2 * (t * (i * BONE * BONE)) - 2 * (u * BONE) * BONE;
  }

  /** The bound on one term's rounding, as a share of its denominator. */
  ghost function RoundingShare(i: int): real {
    if i == 1 then 1.5 else 0.875
  }

  lemma TermRounding(a: int, base: int, l: Loop)
    requires Guarded(a, base) && Shrinking(base, l)
    ensures NextTerm(a, Distance(base), l.i, l.term).Success?
    ensures var t, w := NextTerm(a, Distance(base), l.i, l.term).value.0, l.i * BONE * BONE;
            Abs((t * w - l.term * (Coefficient(a, l.i) * Distance(base))) as real) <= RoundingShare(l.i) * w as real
  {
    var i, x, term := l.i, Distance(base), l.term;
    var c := Coefficient(a, i);
    var m := Bmul(c, x);
    NextTermShape(a, x, i, term);
    CoefficientBound(a, i);
    BmulBracket(c, x);
    BmulBracket(term, m);
    var t := NextTerm(a, x, i, term).value.0;
    RoundingArithmetic(i, term, c * x, m, Bmul(term, m), t);
    RoundingIsShare(i, term, t * (i * BONE * BONE) - term * (c * x));
  }

  lemma RoundingIsShare(i: int, term: int, err: int)
    requires i >= 1 && 0 <= term && (i == 1 ==> term == BONE) && (i >= 2 ==> 2 * term <= BONE)
    requires -(term * BONE + BONE * BONE + i * BONE * BONE) <= 2 * err <= term * BONE + BONE * BONE + i * BONE * BONE
    ensures Abs(err as real) <= RoundingShare(i) * (i * BONE * BONE) as real
  {
    var w := i * BONE * BONE;
    if i == 1 {
      assert w == BONE * BONE;
      assert -(3 * w) <= 2 * err <= 3 * w;
    } else {
      assert -(7 * w) <= 8 * err <= 7 * w;
    }
  }

  /** The size of the exact ratio, built from the loop's own unsigned quantities. */
  ghost function RatioSize(a: int, base: int, i: int): real
    requires i >= 1
  {
    (Coefficient(a, i) * Distance(base)) as real / (i * BONE * BONE) as real
  }

  /** The sign the loop gives a term is the sign of the exact ratio. */
  lemma RatioSign(a: int, base: int, i: int)
    requires 0 <= a < BONE && i >= 1
    ensures Ratio(a, base, i) == (if (base < BONE) != (i >= 2) then -RatioSize(a, base, i) else RatioSize(a, base, i))
  {
    var c, d := a - (i - 1) * BONE, base - BONE;
    var p, w := Coefficient(a, i) * Distance(base), i * BONE * BONE;
    CoefficientBound(a, i);
    if (base < BONE) != (i >= 2) {
      assert c * d == -p;
      assert (-p) as real / w as real == -(p as real / w as real);
    } else {
      assert c * d == p;
    }
  }

  ghost function NextSigned(l: Loop, xneg: bool, t: int): int {
    if (l.negative != xneg) != (l.i >= 2) then -t else t
  }

  ghost predicate Rounded(a: int, base: int, l: Loop, t: int) {
    l.i >= 1 && Near(t as real, Times(l.term as real, RatioSize(a, base, l.i)), RoundingShare(l.i))
  }

  lemma NextTermRounded(a: int, base: int, l: Loop)
    requires Guarded(a, base) && Shrinking(base, l)
    ensures NextTerm(a, Distance(base), l.i, l.term).Success?
    ensures Rounded(a, base, l, NextTerm(a, Distance(base), l.i, l.term).value.0)
  {
    TermRounding(a, base, l);
    RealError(NextTerm(a, Distance(base), l.i, l.term).value.0, l.term, Coefficient(a, l.i) * Distance(base),
              l.i * BONE * BONE, RoundingShare(l.i));
  }

  lemma ErrorAfterStep(l: Loop, xneg: bool, t: int, size: real, r: real, e: real)
    requires l.i >= 1 && r == (if xneg != (l.i >= 2) then -size else size) && Abs(r) <= 0.5
    requires Near(t as real, Times(l.term as real, size), RoundingShare(l.i))
    requires Near(Signed(l) as real, e, if l.i == 1 then 0.0 else 2.0)
    ensures Near(NextSigned(l, xneg, t) as real, Times(e, r), 2.0)
  {
    SignedErrorStep(l.negative, (l.negative != xneg) != (l.i >= 2), t as real, l.term as real, size, r, e,
                    RoundingShare(l.i), if l.i == 1 then 0.0 else 2.0);
  }

  /** A rounded term stays within two units of the exact one. */
  lemma StepTermAccurate(a: int, base: int, l: Loop, t: int)
    requires Guarded(a, base) && TermAccurate(a, base, l) && Rounded(a, base, l, t)
    ensures Near(NextSigned(l, base < BONE, t) as real, ExactTerm(a, base, l.i), 2.0)
  {
    RatioSign(a, base, l.i);
    RatioBound(a, base, l.i);
    ErrorAfterStep(l, base < BONE, t, RatioSize(a, base, l.i), Ratio(a, base, l.i), ExactTerm(a, base, l.i - 1));
    ExactTermStep(a, base, l.i);
  }

  lemma ExactTermStep(a: int, base: int, n: nat)
    requires n >= 1
    ensures ExactTerm(a, base, n) == Times(ExactTerm(a, base, n - 1), Ratio(a, base, n))
  {
  }


  // ---------------------------------------------------------------- the whole loop

  /** The iterations run up to a final loop state: the one that finds a zero term no longer counts itself. */
  function Iterations(f: Loop): int {
    if f.term == 0 then f.i else f.i - 1
  }

  /** What the loop variables are worth once the loop has ended. */
  ghost predicate Settled(base: int, f: Loop) {
    && Iterations(f) <= MAX_ITERATIONS
    && f.term < BPOW_PRECISION
    && if base < BONE then 2 * base - BONE - MAX_ITERATIONS <= f.sum <= BONE else BONE <= f.sum <= base
  }

  /** The allowed distance from the exact series: the precision asked for, and two units an iteration. */
  const SERIES_ERROR: real := (BPOW_PRECISION + 2 * MAX_ITERATIONS + 4) as real

  lemma StepSumAccurate(a: int, base: int, l: Loop, t: int)
    requires SumAccurate(a, base, l) && Near(NextSigned(l, base < BONE, t) as real, ExactTerm(a, base, l.i), 2.0)
    requires AddTerm(l, t, l.i >= 2, base < BONE).Success?
    ensures var l' := AddTerm(l, t, l.i >= 2, base < BONE).value;
            TermAccurate(a, base, l') && SumAccurate(a, base, l')
  {
  }

  lemma StepInvariant(a: int, base: int, l: Loop)
    requires Guarded(a, base) && Invariant(a, base, l) && l.term >= BPOW_PRECISION
    ensures NextTerm(a, Distance(base), l.i, l.term).Success?
    ensures NextTerm(a, Distance(base), l.i, l.term).value.1 <==> l.i >= 2
    ensures var t := NextTerm(a, Distance(base), l.i, l.term).value.0;
            && Near(NextSigned(l, base < BONE, t) as real, ExactTerm(a, base, l.i), 2.0)
            && (t != 0 ==> var l' := AddTerm(l, t, l.i >= 2, base < BONE); l'.Success? && Invariant(a, base, l'.value))
  {
    NextTermShape(a, Distance(base), l.i, l.term);
    NextTermRounded(a, base, l);
    var t := NextTerm(a, Distance(base), l.i, l.term).value.0;
    StepTermAccurate(a, base, l, t);
    FewIterations(base, l);
    if t != 0 {
      StepBounded(a, base, l);
      StepSumAccurate(a, base, l, t);
    }
  }

  /** Stopping at iteration n leaves out no more than the exact term it stopped at. */
  lemma StopAccurate(a: int, base: int, sum: int, n: nat, last: real, m: nat)
    requires Guarded(a, base) && n <= MAX_ITERATIONS <= m
    requires Near(sum as real, PartialSum(a, base, n), 2.0 * n as real + 2.0)
    requires Abs(ExactTerm(a, base, n)) <= last <= BPOW_PRECISION as real + 2.0
    ensures Near(sum as real, PartialSum(a, base, m), SERIES_ERROR)
  {
    TailBound(a, base, n, m);
  }

  lemma {:induction false} SeriesConverges(a: int, base: int, l: Loop, m: nat)
    requires Guarded(a, base) && Invariant(a, base, l) && m >= MAX_ITERATIONS
    ensures Series(a, Distance(base), base < BONE, l).Success?
    ensures var f := Series(a, Distance(base), base < BONE, l).value;
            Settled(base, f) && Near(f.sum as real, PartialSum(a, base, m), SERIES_ERROR)
    decreases l.term
  {
    var x := Distance(base);
    if l.term < BPOW_PRECISION {
      StopAccurate(a, base, l.sum, l.i - 1, (BPOW_PRECISION + 2) as real, m);
    } else {
      StepInvariant(a, base, l);
      NextTermExists(a, x, l.i, l.term);
      FewIterations(base, l);
      var (t, cneg) := NextTerm(a, x, l.i, l.term).value;
      if t == 0 {
        StopAccurate(a, base, l.sum, l.i, 2.0, m);
      } else {
        SeriesConverges(a, base, AddTerm(l, t, cneg, base < BONE).value, m);
      }
    }
  }

  /**
   For every base the guard admits and every fractional exponent: the loop ends within 34
   iterations, never throws, and its result is the binomial series of the power, taken to any length
   m, to within BPOW_PRECISION and 72 units; it lies on the right side of one.
   */
  lemma PowerSeriesTheorem(base: int, exp: int, m: nat)
    requires Guarded(exp, base) && m >= MAX_ITERATIONS
    ensures var s := Series(exp, Distance(base), base < BONE, FirstLoop);
            s.Success? && Iterations(s.value) <= MAX_ITERATIONS && ApproxPower(base, exp) == Success(s.value.sum)
    ensures Near(ApproxPower(base, exp).value as real, PartialSum(exp, base, m), SERIES_ERROR)
    ensures base < BONE ==> 0 < ApproxPower(base, exp).value <= BONE
    ensures base >= BONE ==> BONE <= ApproxPower(base, exp).value <= base
  {
    SeriesConverges(exp, base, FirstLoop, m);
  }
}
