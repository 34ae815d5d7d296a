/**
 Balancer V2's natural logarithms: powers of e are divided out greedily, and what is left goes through the
 series 2 * (z + z^3 / 3 + z^5 / 5 + ...) with z = (a - 1) / (a + 1).
 */
module LogExpLogarithm {
  import opened Truncating
  import opened LogExpConstants
  import opened RealErrors
  import opened LogExpExponential

  // ---------------------------------------------------------------- the series

  /** The power of z reached and the sum so far, after k terms of the series. */
  function LogSeries(z: int, zSquared: int, one: int, k: nat): (int, int)
    requires one > 0
  {
    if k == 0 then (z, z)
    else
      var (num, sum) := LogSeries(z, zSquared, one, k - 1);
      var next := Quot(num * zSquared, one);
      (next, sum + Quot(next, 2 * k + 1))
  }

  /** The logarithm of a by k terms of its series in (a - 1) / (a + 1). */
  function SeriesLn(a: nat, one: int, k: nat): int
    requires one > 0
  {
    var z := Quot((a - one) * one, a + one);
    2 * LogSeries(z, Quot(z * z, one), one, k).1
  }

  /** A common denominator of the series' divisors 3, 5, 7, 9, 11, 13 and 15. */
  const L: int := 45045

  /** num, sum: the power of z reached and the terms added up; w is the first power after z. */
  ghost predicate Tail(z: int, w: int, num: int, sum: int, c: nat) {
    && (z >= 0 ==> 0 <= num <= (if c == 0 then z else w) && z <= sum && L * sum <= L * z + c * w)
    && (z <= 0 ==> (if c == 0 then z else w) <= num <= 0 && sum <= z && L * sum >= L * z + c * w)
  }

  lemma ScaledQuotient(num: int, q: int, one: int)
    requires one > 0 && 0 <= q <= one
    ensures num >= 0 ==> 0 <= Quot(num * q, one) <= num
    ensures num <= 0 ==> num <= Quot(num * q, one) <= 0
  {
    var m := if num >= 0 then num else -num;
    MulMono(0, q, m);
    MulMono(q, one, m);
    assert num * q == m * q || num * q == -(m * q);
    NatQuotient(m * q, one);
    FloorBelow(m * q, one, m + 1);
  }

  lemma Divided(num: int, d: int)
    requires d > 0
    ensures num >= 0 ==> 0 <= Quot(num, d) && d * Quot(num, d) <= num
    ensures num <= 0 ==> Quot(num, d) <= 0 && d * Quot(num, d) >= num
  {
    NatQuotient(if num >= 0 then num else -num, d);
    FloorBracket(if num >= 0 then num else -num, d);
  }

  /** A term of at most one d-th weighs at most k L-ths, where d * k is L. */
  lemma WeightedTerm(t: int, d: nat, k: nat, w: int)
    requires d * k == L
    ensures d * t <= w ==> L * t <= k * w
    ensures d * t >= w ==> L * t >= k * w
  {
    assert d * t * k == d * k * t;
    if d * t <= w {
      MulMono(d * t, w, k);
    }
    if d * t >= w {
      MulMono(w, d * t, k);
    }
  }

  lemma TermAdded(z: int, w: int, num: int, num': int, sum: int, c: nat, d: int, k: nat)
    requires Tail(z, w, num, sum, c) && d > 0 && d * k == L
    requires z >= 0 ==> 0 <= w <= z && 0 <= num' <= w
    requires z <= 0 ==> z <= w <= 0 && w <= num' <= 0
    ensures Tail(z, w, num', sum + Quot(num', d), c + k)
  {
    var t := Quot(num', d);
    Divided(num', d);
    WeightedTerm(t, d, k, w);
    assert (c + k) * w == c * w + k * w;
  }

  lemma SquareBound(z: int, one: int)
    requires one > 0 && -one <= z <= one
    ensures 0 <= Quot(z * z, one) <= one
  {
    var n := if z >= 0 then z else -z;
    assert z * z == n * n;
    MulMono(0, n, n);
    MulMono(n, one, n);
    ScaledQuotient(n, n, one);
  }

  /** z has the sign of a - 1, and it and its square lie within one unit. */
  lemma RatioBounds(a: int, one: int)
    requires one > 0 && a > 0
    ensures var z := Quot((a - one) * one, a + one);
            && -one <= z <= one && (a >= one ==> z >= 0) && (a <= one ==> z <= 0)
            && 0 <= Quot(z * z, one) <= one
            && (a >= one ==> z * (a + one) <= (a - one) * one)
  {
    var m := if a >= one then a - one else one - a;
    RatioOf(m, one, a + one);
    assert (a - one) * one == m * one || (a - one) * one == -(m * one);
    SquareBound(Quot((a - one) * one, a + one), one);
  }

  lemma RatioOf(m: int, one: int, d: int)
    requires one > 0 && 0 <= m <= d && d > 0
    ensures m * one >= 0 && 0 <= m * one / d <= one && (m * one / d) * d <= m * one
  {
    MulMono(0, m, one);
    MulMono(m, d, one);
    FloorAtLeast(m * one, d, 0);
    FloorBelow(m * one, d, one + 1);
    FloorBracket(m * one, d);
  }

  /** The weight of the first k terms, in units of one L-th. */
  function Weight(k: nat): nat
    requires k <= 7
  {
    if k == 0 then 0 else Weight(k - 1) + L / (2 * k + 1)
  }

  /** The terms keep the sign of z and shrink: the sum stays between z and z plus the weighted next power. */
  lemma {:induction false} SeriesTail(z: int, q: int, one: int, k: nat)
    requires one > 0 && 0 <= q <= one && k <= 7
    ensures Tail(z, Quot(z * q, one), LogSeries(z, q, one, k).0, LogSeries(z, q, one, k).1, Weight(k))
    ensures k == 0 <==> Weight(k) == 0
  {
    if k > 0 {
      var w, d := Quot(z * q, one), 2 * k + 1;
      SeriesTail(z, q, one, k - 1);
      var (num, sum) := LogSeries(z, q, one, k - 1);
      ScaledQuotient(num, q, one);
      ScaledQuotient(z, q, one);
      DivisorOfL(k);
      TermAdded(z, w, num, Quot(num * q, one), sum, Weight(k - 1), d, L / d);
    }
  }

  lemma DivisorOfL(k: nat)
    requires 1 <= k <= 7
    ensures (2 * k + 1) * (L / (2 * k + 1)) == L
  {
  }

  /** A logarithm by the series has the sign of a - 1. */
  lemma SeriesSign(a: nat, one: int, k: nat)
    requires one > 0 && a > 0 && k <= 7
    ensures a >= one ==> SeriesLn(a, one, k) >= 0
    ensures a <= one ==> SeriesLn(a, one, k) <= 0
  {
    RatioBounds(a, one);
    var z := Quot((a - one) * one, a + one);
    SeriesTail(z, Quot(z * z, one), one, k);
  }

  lemma SeriesProduct(z: nat, q: nat, w: nat, u: nat)
    requires z <= u && 0 < u && q * u <= z * z && w * u <= z * q
    ensures (z + w) * (u - z) <= z * u
  {
    MulMono(z, u, z);
    CancelRight(q, z, u);
    MulMono(q, z, z);
    MulMono(0, w, z);
    assert (z + w) * (u - z) == z * u - z * z + w * u - w * z;
  }

  lemma RatioProduct(z: int, a: int, u: int)
    requires z * (a + u) <= (a - u) * u
    ensures 2 * (z * u) <= (a - u) * (u - z)
  {
    assert z * (a + u) == z * (a - u) + 2 * (z * u);
    assert (a - u) * (u - z) == (a - u) * u - z * (a - u);
  }

  lemma SeriesBelow(a: nat, z: nat, q: nat, w: nat, sum: int, u: nat)
    requires 0 < u <= a && z <= u && z * (a + u) <= (a - u) * u
    requires q * u <= z * z && w * u <= z * q && sum <= z + w
    ensures 2 * sum <= a - u
  {
    RatioProduct(z, a, u);
    SeriesProduct(z, q, w, u);
    if z < u {
      CancelRight(2 * (z + w), a - u, u - z);
    } else {
      MulMono(1, u, u);
      assert false;
    }
  }

  /** The square of z and the power after it, with their roundings. */
  lemma ScaledPowers(z: nat, u: nat)
    requires 0 < u && z <= u
    ensures var q := Quot(z * z, u);
            var w := Quot(z * q, u);
            0 <= q <= u && q * u <= z * z && 0 <= w && w * u <= z * q
  {
    SquareBound(z, u);
    var q := Quot(z * z, u);
    MulMono(0, z, z);
    FloorBracket(z * z, u);
    ScaledQuotient(z, q, u);
    MulMono(0, z, q);
    FloorBracket(z * q, u);
  }

  /** ln(a) <= a - 1, for the five terms taken with 20 decimals. */
  lemma SeriesAtMost(a: nat)
    requires a >= ONE_20
    ensures 0 <= SeriesLn(a, ONE_20, 5) <= a - ONE_20
  {
    RatioBounds(a, ONE_20);
    SeriesSign(a, ONE_20, 5);
    var z := Quot((a - ONE_20) * ONE_20, a + ONE_20);
    var q := Quot(z * z, ONE_20);
    SeriesTail(z, q, ONE_20, 5);
    ScaledPowers(z, ONE_20);
    AtMostFromTail(a, z, q, Quot(z * q, ONE_20), LogSeries(z, q, ONE_20, 5).1);
  }

  lemma AtMostFromTail(a: nat, z: nat, q: nat, w: nat, sum: int)
    requires ONE_20 <= a && z <= ONE_20 && z * (a + ONE_20) <= (a - ONE_20) * ONE_20
    requires q * ONE_20 <= z * z && w * ONE_20 <= z * q && L * sum <= L * z + Weight(5) * w
    ensures 2 * sum <= a - ONE_20
  {
    FiveTerms(z, w, sum);
    SeriesBelow(a, z, q, w, sum, ONE_20);
  }

  lemma FiveTerms(z: int, w: int, sum: int)
    requires w >= 0 && L * sum <= L * z + Weight(5) * w
    ensures sum <= z + w
  {
    assert Weight(5) == Weight(4) + 4095 == Weight(3) + 9100 == Weight(2) + 15535 == Weight(1) + 24544 == 39559;
    CancelRight(sum, z + w, L);
  }

  /** One more odd power of z, divided and added. */
  method SeriesStep(num: int, sum: int, zSquared: int, one: int, d: int, ghost z: int, ghost k: nat) returns (num': int, sum': int)
    requires one > 0 && k > 0 && d == 2 * k + 1 && (num, sum) == LogSeries(z, zSquared, one, k - 1)
    ensures (num', sum') == LogSeries(z, zSquared, one, k)
  {
    num' := Quot(num * zSquared, one);
    sum' := sum + Quot(num', d);
  }

  /** The logarithm of a number close to one, with 36 decimals. */
  method Ln36(x_: nat) returns (r: int)
    requires x_ > 0
    ensures r == SeriesLn(x_ * ONE_18, ONE_36, 7)
    ensures x_ >= ONE_18 ==> r >= 0
    ensures x_ <= ONE_18 ==> r <= 0
  {
    var x := x_ * ONE_18;
    SeriesSign(x, ONE_36, 7);
    var z := Quot((x - ONE_36) * ONE_36, x + ONE_36);
    var zSquared := Quot(z * z, ONE_36);
    var num := z;
    var seriesSum := num;
    num, seriesSum := SeriesStep(num, seriesSum, zSquared, ONE_36, 3, z, 1);
    num, seriesSum := SeriesStep(num, seriesSum, zSquared, ONE_36, 5, z, 2);
    num, seriesSum := SeriesStep(num, seriesSum, zSquared, ONE_36, 7, z, 3);
    num, seriesSum := SeriesStep(num, seriesSum, zSquared, ONE_36, 9, z, 4);
    num, seriesSum := SeriesStep(num, seriesSum, zSquared, ONE_36, 11, z, 5);
    num, seriesSum := SeriesStep(num, seriesSum, zSquared, ONE_36, 13, z, 6);
    num, seriesSum := SeriesStep(num, seriesSum, zSquared, ONE_36, 15, z, 7);
    r := seriesSum * 2;
  }

  // ---------------------------------------------------------------- dividing out the constants

  /** One constant: divided out of a, and its logarithm added, when a has reached it. */
  function Divide(a: nat, sum: int, n: int): (nat, int)
    requires 2 <= n <= 11
  {
    Constants(n);
    QuotSign(a * ONE_20, A(n));
    if a >= A(n) then (Quot(a * ONE_20, A(n)), sum + X(n)) else (a, sum)
  }

  /** The constants up to the n-th, in turn. */
  function DivideUpTo(a: nat, sum: int, n: int): (nat, int)
    requires 1 <= n <= 11
  {
    if n == 1 then (a, sum)
    else
      var (a', sum') := DivideUpTo(a, sum, n - 1);
      Divide(a', sum', n)
  }

  /** The two whole constants, in turn: what is left of a, and the logarithms found, with 18 decimals. */
  function DivideWhole(a: nat): (nat, int) {
    QuotSign(a, A0);
    var (b, sum) := if a >= A0 * ONE_18 then (Quot(a, A0), X0) else (a, 0);
    QuotSign(b, A1);
    if b >= A1 * ONE_18 then (Quot(b, A1), sum + X1) else (b, sum)
  }

  /** All constants: what is left of a, and the logarithms found, with 20 decimals. */
  function Decompose(a: nat): (nat, int) {
    var (b, sum) := DivideWhole(a);
    DivideUpTo(b * 100, sum * 100, 11)
  }

  function LnUp(a: nat): int {
    var (rest, sum) := Decompose(a);
    Quot(sum + SeriesLn(rest, ONE_20, 5), 100)
  }

  function LnValue(a: nat): int
    requires a > 0
  {
    QuotSign(ONE_36, a);
    if a < ONE_18 then -LnUp(Quot(ONE_36, a)) else LnUp(a)
  }

  /** a and the sum found so far: together never more than the argument's distance from one. */
  ghost predicate Divided20(a: int, sum: int, bound: int) {
    a >= ONE_20 && sum >= 0 && sum + (a - ONE_20) <= bound
  }

  lemma DivisionShrinks(a: int, c: int, x: int, one: int)
    requires one > 0 && c >= one + x && x >= 0 && a >= c
    ensures one <= Quot(a * one, c) && Quot(a * one, c) + x <= a
  {
    MulMono(c, a, one);
    FloorAtLeast(a * one, c, one);
    assert (a - x) * c - a * one == (a - c) * (c - one) + (c - one - x) * c by {
      assert (a - x) * c == a * c - x * c;
      assert (a - c) * (c - one) == a * c - a * one - c * c + c * one;
      assert (c - one - x) * c == c * c - one * c - x * c;
    }
    MulMono(0, a - c, c - one);
    MulMono(0, c - one - x, c);
    if Quot(a * one, c) > a - x {
      FloorBelow(a * one, c, a - x + 1);
    }
  }

  lemma WholeDivision(a: int, c: int, x: int)
    requires c >= 1 + x && x >= 0 && a >= c * ONE_18
    ensures ONE_18 <= Quot(a, c) && Quot(a, c) + x * ONE_18 <= a
  {
    FloorAtLeast(a, c, ONE_18);
    FloorBracket(a, c);
    var q := a / c;
    MulMono(ONE_18, q, c - 1);
    MulMono(x, c - 1, ONE_18);
    assert q * c == q + q * (c - 1);
  }

  lemma DivideKeeps(a: nat, sum: int, n: int, bound: int)
    requires 2 <= n <= 11 && Divided20(a, sum, bound)
    ensures Divided20(Divide(a, sum, n).0, Divide(a, sum, n).1, bound)
  {
    Constants(n);
    if a >= A(n) {
      DivisionShrinks(a, A(n), X(n), ONE_20);
    }
  }

  lemma {:induction false} DivideUpToKeeps(a: nat, sum: int, n: int, bound: int)
    requires 1 <= n <= 11 && Divided20(a, sum, bound)
    ensures Divided20(DivideUpTo(a, sum, n).0, DivideUpTo(a, sum, n).1, bound)
    decreases n
  {
    if n > 1 {
      DivideUpToKeeps(a, sum, n - 1, bound);
      DivideKeeps(DivideUpTo(a, sum, n - 1).0, DivideUpTo(a, sum, n - 1).1, n, bound);
    }
  }

  lemma WholeKeeps(a: nat)
    requires a >= ONE_18
    ensures var (b, sum) := DivideWhole(a); b >= ONE_18 && sum >= 0 && sum + (b - ONE_18) <= a - ONE_18
  {
    var b := if a >= A0 * ONE_18 then Quot(a, A0) else a;
    if a >= A0 * ONE_18 {
      WholeDivision(a, A0, 128);
    }
    if b >= A1 * ONE_18 {
      WholeDivision(b, A1, 64);
    }
  }

  /** From one upward the logarithm is not negative, and at most the distance from one. */
  lemma LnUpTheorem(a: nat)
    requires a >= ONE_18
    ensures 0 <= LnUp(a) <= a - ONE_18
  {
    WholeKeeps(a);
    var (b, sum) := DivideWhole(a);
    DivideUpToKeeps(b * 100, sum * 100, 11, 100 * (a - ONE_18));
    SeriesAtMost(Decompose(a).0);
  }

  lemma InverseAtLeastOne(a: int)
    requires 0 < a <= ONE_18
    ensures Quot(ONE_36, a) >= ONE_18
  {
    MulMono(a, ONE_18, ONE_18);
    FloorAtLeast(ONE_36, a, ONE_18);
  }

  method DivideStep(a: nat, sum: int, n: int, ghost first: nat, ghost firstSum: int) returns (a': nat, sum': int)
    requires 2 <= n <= 11 && (a, sum) == DivideUpTo(first, firstSum, n - 1)
    ensures (a', sum') == DivideUpTo(first, firstSum, n)
  {
    a', sum' := a, sum;
    if a >= A(n) {
      Constants(n);
      QuotSign(a * ONE_20, A(n));
      a' := Quot(a * ONE_20, A(n));
      sum' := sum + X(n);
    }
  }

  /** The logarithm of a number of at least one. */
  method LnAboveOne(a_: nat) returns (r: int)
    ensures r == LnUp(a_)
  {
    var a: nat := a_;
    var sum := 0;
    if a >= A0 * ONE_18 {
      QuotSign(a, A0);
      a := Quot(a, A0);
      sum := sum + X0;
    }
    if a >= A1 * ONE_18 {
      QuotSign(a, A1);
      a := Quot(a, A1);
      sum := sum + X1;
    }
    sum := sum * 100;
    a := a * 100;
    a, sum := DivideAll(a, sum);
    var seriesSum := LnRemainder(a);
    r := Quot(sum + seriesSum, 100);
  }

  /** The ten constants with 20 decimals, one after the other. */
  method DivideAll(a_: nat, sum_: int) returns (a: nat, sum: int)
    ensures (a, sum) == DivideUpTo(a_, sum_, 11)
  {
    a, sum := a_, sum_;
    a, sum := DivideStep(a, sum, 2, a_, sum_);
    a, sum := DivideStep(a, sum, 3, a_, sum_);
    a, sum := DivideStep(a, sum, 4, a_, sum_);
    a, sum := DivideStep(a, sum, 5, a_, sum_);
    a, sum := DivideStep(a, sum, 6, a_, sum_);
    a, sum := DivideStep(a, sum, 7, a_, sum_);
    a, sum := DivideStep(a, sum, 8, a_, sum_);
    a, sum := DivideStep(a, sum, 9, a_, sum_);
    a, sum := DivideStep(a, sum, 10, a_, sum_);
    a, sum := DivideStep(a, sum, 11, a_, sum_);
  }

  /** What is left of a, close to one, by its series; doubled. */
  method LnRemainder(a: nat) returns (r: int)
    ensures r == SeriesLn(a, ONE_20, 5)
  {
    var z := Quot((a - ONE_20) * ONE_20, a + ONE_20);
    var zSquared := Quot(z * z, ONE_20);
    var num := z;
    var seriesSum := num;
    num, seriesSum := SeriesStep(num, seriesSum, zSquared, ONE_20, 3, z, 1);
    num, seriesSum := SeriesStep(num, seriesSum, zSquared, ONE_20, 5, z, 2);
    num, seriesSum := SeriesStep(num, seriesSum, zSquared, ONE_20, 7, z, 3);
    num, seriesSum := SeriesStep(num, seriesSum, zSquared, ONE_20, 9, z, 4);
    num, seriesSum := SeriesStep(num, seriesSum, zSquared, ONE_20, 11, z, 5);
    r := seriesSum * 2;
  }

  /** The natural logarithm: of a number below one it is minus that of the inverse, one call deep. */
  method Ln(a: nat) returns (r: int)
    requires a > 0
    ensures r == LnValue(a)
    ensures a >= ONE_18 ==> 0 <= r <= a - ONE_18
    ensures a <= ONE_18 ==> r <= 0
    ensures a < ONE_18 ==> ONE_18 - Quot(ONE_36, a) <= r
    decreases a < ONE_18
  {
    if a < ONE_18 {
      InverseAtLeastOne(a);
      var l := Ln(Quot(ONE_18 * ONE_18, a));
      return -1 * l;
    }
    LnUpTheorem(a);
    r := LnAboveOne(a);
  }

  // ---------------------------------------------------------------- what was divided out makes up the argument

  /** The product of the constants divided out up to the n-th, as exact numbers. */
  ghost function Divisors(a: nat, sum: int, n: int): real
    requires 1 <= n <= 11
  {
    if n == 1 then 1.0
    else
      var before := Divisors(a, sum, n - 1);
      if DivideUpTo(a, sum, n - 1).0 >= A(n) then Times(before, Unscaled(A(n))) else before
  }

  /** The logarithms that belong to them. */
  function Exponents(a: nat, sum: int, n: int): int
    requires 1 <= n <= 11
  {
    if n == 1 then 0
    else Exponents(a, sum, n - 1) + if DivideUpTo(a, sum, n - 1).0 >= A(n) then X(n) else 0
  }

  /** rest * p makes up a, short of at most m units of rest. */
  ghost predicate MakesUp(a: real, rest: real, p: real, m: real) {
    p >= 1.0 && Times(rest, p) <= a <= Times(rest + m, p)
  }

  lemma DivideOnce(rest: nat, c: int, q: int)
    requires c >= ONE_20 && q == rest * ONE_20 / c
    ensures MakesUp(rest as real, q as real, Unscaled(c), 1.0)
  {
    FloorBracket(rest * ONE_20, c);
    assert (q * c) as real == q as real * c as real;
    assert (rest * ONE_20) as real == rest as real * ONE_20 as real;
  }

  lemma MakeUpFurther(a: real, rest: real, p: real, m: real, q: real, f: real, n: real)
    requires MakesUp(a, rest, p, m) && MakesUp(rest, q, f, n) && m >= 0.0 && n >= 0.0 && q >= 0.0
    ensures MakesUp(a, q, Times(p, f), m + n)
  {
    TimesMono(1.0, f, p);
    TimesSymmetric(p, f);
    TimesMono(Times(q, f), rest, p);
    TimesMono(1.0, f, m);
    TimesSymmetric(m, f);
    TimesMono(rest + m, Times(q + n + m, f), p);
    Regrouped(q, f, p);
    Regrouped(q + m + n, f, p);
  }

  lemma Regrouped(q: real, f: real, p: real)
    ensures Times(Times(q, f), p) == Times(q, Times(p, f))
  {
  }

  /** The greedy steps lose nothing but the roundings: remainder and divisors make up the argument again. */
  lemma {:induction false} DecompositionTheorem(a: nat, sum: int, n: int)
    requires 1 <= n <= 11
    ensures MakesUp(a as real, DivideUpTo(a, sum, n).0 as real, Divisors(a, sum, n), (n - 1) as real)
    ensures DivideUpTo(a, sum, n).1 == sum + Exponents(a, sum, n)
    decreases n
  {
    if n == 1 {
    } else {
      DecompositionTheorem(a, sum, n - 1);
      Constants(n);
      var rest, p := DivideUpTo(a, sum, n - 1).0, Divisors(a, sum, n - 1);
      if rest >= A(n) {
        QuotSign(rest * ONE_20, A(n));
        var q := Quot(rest * ONE_20, A(n));
        DivideOnce(rest, A(n), q);
        MakeUpFurther(a as real, rest as real, p, (n - 2) as real, q as real, Unscaled(A(n)), 1.0);
      } else {
        MakeUpLonger(a as real, rest as real, p, (n - 2) as real);
      }
    }
  }

  lemma MakeUpLonger(a: real, rest: real, p: real, m: real)
    requires MakesUp(a, rest, p, m)
    ensures MakesUp(a, rest, p, m + 1.0)
  {
    TimesMono(rest + m, rest + m + 1.0, p);
  }

  // ---------------------------------------------------------------- the whole constants too, and what is left

  /** The product of the whole constants divided out. */
  ghost function WholeDivisors(a: nat): real {
    var first := a >= A0 * ONE_18;
    var b := if first then Quot(a, A0) else a;
    Times(if first then A0 as real else 1.0, if b >= A1 * ONE_18 then A1 as real else 1.0)
  }

  lemma DivideWholeOnce(rest: nat, c: int)
    requires c >= 1
    ensures Quot(rest, c) >= 0 && MakesUp(rest as real, Quot(rest, c) as real, c as real, 1.0)
  {
    QuotSign(rest, c);
    FloorBracket(rest, c);
    var q := rest / c;
    assert (q * c) as real == q as real * c as real;
  }

  lemma NothingDivided(a: real)
    requires a >= 0.0
    ensures MakesUp(a, a, 1.0, 1.0)
  {
  }

  lemma WholeMakesUp(a: nat)
    ensures MakesUp(a as real, DivideWhole(a).0 as real, WholeDivisors(a), 2.0)
  {
    QuotSign(a, A0);
    var first := a >= A0 * ONE_18;
    var b: nat := if first then Quot(a, A0) else a;
    var p, f := if first then A0 as real else 1.0, if b >= A1 * ONE_18 then A1 as real else 1.0;
    if first {
      DivideWholeOnce(a, A0);
    } else {
      NothingDivided(a as real);
    }
    QuotSign(b, A1);
    if b >= A1 * ONE_18 {
      DivideWholeOnce(b, A1);
    } else {
      NothingDivided(b as real);
    }
    MakeUpFurther(a as real, b as real, p, 1.0, DivideWhole(a).0 as real, f, 1.0);
  }

  lemma MakeUpScaled(a: real, rest: real, p: real, m: real)
    requires MakesUp(a, rest, p, m)
    ensures MakesUp(100.0 * a, 100.0 * rest, p, 100.0 * m)
  {
    assert Times(100.0 * rest, p) == 100.0 * Times(rest, p);
    assert Times(100.0 * rest + 100.0 * m, p) == 100.0 * Times(rest + m, p);
  }

  /**
   The whole decomposition: what is left, times every constant divided out, makes up the argument to 210
   units of 20 decimals, and the sum is that of exactly their logarithms.
   */
  lemma WholeDecompositionTheorem(a: nat)
    ensures var (b, sum) := DivideWhole(a);
            && MakesUp(100.0 * a as real, Decompose(a).0 as real,
                       Times(WholeDivisors(a), Divisors(b * 100, sum * 100, 11)), 210.0)
            && Decompose(a).1 == 100 * sum + Exponents(b * 100, sum * 100, 11)
            && sum == (if a >= A0 * ONE_18 then X0 else 0)
                      + (if (if a >= A0 * ONE_18 then Quot(a, A0) else a) >= A1 * ONE_18 then X1 else 0)
  {
    var (b, sum) := DivideWhole(a);
    WholeMakesUp(a);
    MakeUpScaled(a as real, b as real, WholeDivisors(a), 2.0);
    DecompositionTheorem(b * 100, sum * 100, 11);
    MakeUpFurther(100.0 * a as real, (b * 100) as real, WholeDivisors(a), 200.0, Decompose(a).0 as real,
                  Divisors(b * 100, sum * 100, 11), 10.0);
  }

  /** The most that can be left after the constants up to the n-th, for an argument in the admitted range. */
  function Most(n: int): int
    requires 1 <= n <= 11
  {
    if n == 1 then (A1 * ONE_18 - 1) * 100
    else if n == 3 then A(3) + 852070
    else if n == 4 then A(4) + 902
    else if n == 5 then A(5) + 11
    else if n == 6 then A(6) + 1
    else if n == 7 || n == 9 then A(n)
    else A(n) - 1
  }

  lemma MostStep(n: int)
    requires 2 <= n <= 11
    ensures A(n) - 1 <= Most(n) && A(n) > 0 && Most(n - 1) >= 0
    ensures Most(n - 1) * ONE_20 / A(n) <= Most(n)
  {
  }

  lemma {:induction false} AtMostAfter(a: nat, sum: int, n: int)
    requires 1 <= n <= 11 && a <= Most(1)
    ensures DivideUpTo(a, sum, n).0 <= Most(n)
    decreases n
  {
    if n > 1 {
      AtMostAfter(a, sum, n - 1);
      MostStep(n);
      var rest := DivideUpTo(a, sum, n - 1).0;
      FloorMono(rest * ONE_20, Most(n - 1) * ONE_20, A(n));
    }
  }

  lemma WholeAtMost(a: nat)
    requires a <= MAX_INT
    ensures DivideWhole(a).0 < A1 * ONE_18
  {
    var b := if a >= A0 * ONE_18 then Quot(a, A0) else a;
    if a >= A0 * ONE_18 {
      FloorMono(a, MAX_INT, A0);
    }
    assert b < A0 * ONE_18;
    if b >= A1 * ONE_18 {
      FloorMono(b, A0 * ONE_18 - 1, A1);
    }
  }

  /** What is left for the series lies between one and the smallest constant. */
  lemma RemainderTheorem(a: nat)
    requires ONE_18 <= a <= MAX_INT
    ensures ONE_20 <= Decompose(a).0 < A(11)
  {
    WholeKeeps(a);
    WholeAtMost(a);
    var (b, sum) := DivideWhole(a);
    DivideUpToKeeps(b * 100, sum * 100, 11, 100 * (a - ONE_18));
    AtMostAfter(b * 100, sum * 100, 11);
  }
}
