/**
 The rounded series of the logarithm against the exact one: every step truncates toward zero, so the
 computed value is short by at most a few units, whatever the argument and the number of terms.
 */
module LogExpSeries {
  import opened Truncating
  import opened RealErrors
  import opened RoundedPowers
  import opened ExponentialSeries
  import opened LogExpLogarithm

  /** A power or a sum in units of one, short of its exact value by at most m units. */
  ghost predicate ShortBy(v: int, exact: real, m: int) {
    v >= 0 && exact - m as real <= v as real <= exact
  }

  /** The exact ratio (a - one) / (a + one). */
  ghost function Ratio(a: int, one: int): real
    requires a + one > 0
  {
    (a - one) as real / (a + one) as real
  }

  lemma FloorReal(n: int, d: int, x: real)
    requires d > 0 && n >= 0 && x * d as real == n as real
    ensures ShortBy(n / d, x, 1)
  {
    FloorBracket(n, d);
    FloorAtLeast(n, d, 0);
    var q := n / d;
    assert (q * d) as real == q as real * d as real;
    if q as real > x {
      RealMulMono(x, q as real, d as real);
    }
    if q as real + 1.0 < x {
      RealMulMono(q as real + 1.0, x, d as real);
    }
  }

  lemma Quotient(x: real, d: real)
    requires d > 0.0
    ensures Times(x / d, d) == x && -x / d == -(x / d)
  {
    var y := x / d;
    assert y * d == x;
    assert -y * d == -x;
  }

  /** Truncating a quotient whose dividend is short already. */
  lemma ShortQuotient(n: int, d: int, exact: real, m: nat, k: nat)
    requires d > 0 && ShortBy(n, exact, m) && m <= k * d
    ensures ShortBy(n / d, exact / d as real, k + 1)
  {
    var dr := d as real;
    var x, y := n as real / dr, exact / dr;
    Quotient(n as real, dr);
    Quotient(exact, dr);
    FloorReal(n, d, x);
    assert (k * d) as real == Times(k as real, dr);
    DifferenceOfProducts(y, k as real, dr);
    ByWeight(x, y, dr);
    ByWeight(y - k as real, x, dr);
  }

  lemma RatioIsShort(m: nat, one: nat, d: nat)
    requires one > 0 && d > 0 && m <= d
    ensures 0.0 <= m as real / d as real <= 1.0
    ensures ShortBy(m * one / d, Times(one as real, m as real / d as real), 1)
  {
    var z, dr := m as real / d as real, d as real;
    assert z * dr == m as real;
    if z < 0.0 {
      RealMulMono(z, 0.0, dr);
    }
    if z > 1.0 {
      RealMulMono(1.0, z, dr);
    }
    MulMono(0, m, one);
    assert (m * one) as real == m as real * one as real;
    assert Times(one as real, z) * dr == one as real * (z * dr);
    FloorReal(m * one, d, Times(one as real, z));
  }

  /** A product of two short numbers in units of u, before it is divided by u. */
  lemma ShortProduct(v: int, w: int, x: real, y: real, m: nat, n: nat, u: nat)
    requires u > 0 && 0.0 <= x <= 1.0 && 0.0 <= y <= 1.0
    requires ShortBy(v, Times(u as real, x), m) && ShortBy(w, Times(u as real, y), n)
    ensures ShortBy(v * w / u, Times(u as real, Times(x, y)), m + n + 1)
  {
    var ur, vr, wr := u as real, v as real, w as real;
    MulMono(0, v, w);
    var p := Times(vr, wr) / ur;
    assert (v * w) as real == Times(vr, wr);
    assert Times(p, ur) == Times(vr, wr);
    FloorReal(v * w, u, p);
    ProductShort(vr, wr, x, y, m as real, n as real, ur);
    QuotientShort(Times(vr, wr), p, Times(ur, Times(x, y)), (m + n) as real, ur);
  }

  lemma ProductShort(v: real, w: real, x: real, y: real, m: real, n: real, u: real)
    requires u > 0.0 && 0.0 <= x <= 1.0 && 0.0 <= y <= 1.0 && v >= 0.0 && w >= 0.0 && m >= 0.0 && n >= 0.0
    requires Times(u, x) - m <= v <= Times(u, x) && Times(u, y) - n <= w <= Times(u, y)
    ensures Times(u, Times(u, Times(x, y))) - Times(u, m + n) <= Times(v, w) <= Times(u, Times(u, Times(x, y)))
  {
    var a, b := Times(u, x), Times(u, y);
    assert Times(u, Times(u, Times(x, y))) == Times(a, b);
    TimesMono(x, 1.0, u);
    TimesMono(y, 1.0, u);
    TimesSymmetric(u, x);
    TimesSymmetric(u, y);
    TimesMono(v, a, w);
    TimesMono(w, b, a);
    TimesSymmetric(w, a);
    TimesSymmetric(b, a);
    TimesMono(a - v, m, b);
    TimesMono(b - w, n, v);
    DifferenceOfProducts(a, v, b);
    DifferenceOfProducts(b, w, v);
    TimesSymmetric(v, b);
    TimesSymmetric(v, w);
    TimesMono(b, u, m);
    TimesMono(v, u, n);
    TimesSymmetric(b, m);
    TimesSymmetric(v, n);
    Distribute(u, m, n);
  }

  lemma QuotientShort(p: real, q: real, e: real, m: real, u: real)
    requires u > 0.0 && Times(q, u) == p && Times(u, e) - Times(u, m) <= p <= Times(u, e)
    ensures e - m <= q <= e
  {
    TimesSymmetric(u, e);
    TimesSymmetric(u, m);
    DifferenceOfProducts(e, m, u);
    ByWeight(q, e, u);
    ByWeight(e - m, q, u);
  }

  // ---------------------------------------------------------------- the series, above one

  lemma {:induction false} PowersAtMost(z: real, k: nat)
    requires 0.0 <= z <= 1.0
    ensures 0.0 <= OddPower(z, k) <= 1.0 && 0.0 <= z * z <= 1.0 && 0.0 <= OddSum(z, k)
  {
    TimesMono(z, 1.0, z);
    TimesMono(0.0, z, z);
    if k > 0 {
      PowersAtMost(z, k - 1);
      UnitProduct(OddPower(z, k - 1), z * z);
      assert OddPower(z, k) / (2 * k + 1) as real >= 0.0;
    }
  }

  /** The power of z reached and the sum, both short of the exact ones. */
  ghost predicate SeriesShort(s: (int, int), z: real, u: nat, k: nat) {
    && ShortBy(s.0, Times(u as real, OddPower(z, k)), 1 + 4 * k)
    && ShortBy(s.1, Times(u as real, OddSum(z, k)), 1 + 3 * k)
  }

  lemma QuotientOfProduct(u: real, p: real, d: real)
    requires d > 0.0
    ensures Times(u, p) / d == Times(u, p / d)
  {
    Quotient(p, d);
    Quotient(Times(u, p), d);
    assert Times(Times(u, p / d), d) == Times(u, Times(p / d, d));
    ByWeight(Times(u, p) / d, Times(u, p / d), d);
    ByWeight(Times(u, p / d), Times(u, p) / d, d);
  }

  lemma TermShort(num: int, sum: int, z: real, u: nat, k: nat)
    requires 0.0 <= z <= 1.0 && k > 0
    requires ShortBy(num, Times(u as real, OddPower(z, k)), 1 + 4 * k)
    requires ShortBy(sum, Times(u as real, OddSum(z, k - 1)), 1 + 3 * (k - 1))
    ensures ShortBy(sum + num / (2 * k + 1), Times(u as real, OddSum(z, k)), 1 + 3 * k)
  {
    var d, p := 2 * k + 1, OddPower(z, k);
    ShortQuotient(num, d, Times(u as real, p), 1 + 4 * k, 2);
    QuotientOfProduct(u as real, p, d as real);
    Distribute(u as real, OddSum(z, k - 1), p / d as real);
  }

  lemma {:induction false} LogSeriesShort(zi: int, qi: int, z: real, u: nat, k: nat)
    requires u > 0 && 0.0 <= z <= 1.0 && ShortBy(zi, Times(u as real, z), 1) && ShortBy(qi, Times(u as real, z * z), 3)
    ensures SeriesShort(LogSeries(zi, qi, u, k), z, u, k)
  {
    if k > 0 {
      var j := k - 1;
      LogSeriesShort(zi, qi, z, u, j);
      PowersAtMost(z, j);
      var (num, sum) := LogSeries(zi, qi, u, j);
      ShortProduct(num, qi, OddPower(z, j), z * z, 1 + 4 * j, 3, u);
      MulMono(0, num, qi);
      TermShort(num * qi / u, sum, z, u, k);
    }
  }

  lemma QuotOdd(a: int, b: int)
    requires b > 0
    ensures Quot(-a, b) == -Quot(a, b)
  {
  }

  lemma ProductOdd(a: int, b: int)
    ensures -a * b == -(a * b) && -a * -a == a * a
  {
  }

  /** Minus z gives minus every power and minus the sum: truncation is toward zero. */
  lemma {:induction false} LogSeriesOdd(zi: int, qi: int, u: int, k: nat)
    requires u > 0
    ensures LogSeries(-zi, qi, u, k).0 == -LogSeries(zi, qi, u, k).0
    ensures LogSeries(-zi, qi, u, k).1 == -LogSeries(zi, qi, u, k).1
  {
    if k > 0 {
      var j := k - 1;
      LogSeriesOdd(zi, qi, u, j);
      var num := LogSeries(zi, qi, u, j).0;
      ProductOdd(num, qi);
      QuotOdd(num * qi, u);
      QuotOdd(Quot(num * qi, u), 2 * k + 1);
    }
  }

  lemma {:induction false} OddSumOdd(z: real, k: nat)
    ensures OddPower(-z, k) == -OddPower(z, k) && OddSum(-z, k) == -OddSum(z, k)
  {
    if k > 0 {
      OddSumOdd(z, k - 1);
      assert -z * -z == z * z;
      SignedProduct(OddPower(z, k - 1), z * z);
      Quotient(OddPower(z, k), (2 * k + 1) as real);
    }
  }

  lemma SquareShort(zi: int, z: real, u: nat)
    requires u > 0 && 0.0 <= z <= 1.0 && ShortBy(zi, Times(u as real, z), 1)
    ensures ShortBy(Quot(zi * zi, u), Times(u as real, z * z), 3)
  {
    MulMono(0, zi, zi);
    ShortProduct(zi, zi, z, z, 1, 1, u);
  }

  /** The doubled sum, for an exact ratio m / d. */
  lemma RatioSeries(m: nat, d: nat, one: nat, k: nat)
    requires one > 0 && d > 0 && m <= d
    ensures var zi, z := m * one / d, m as real / d as real;
            && 0.0 <= z <= 1.0 && zi >= 0
            && ShortBy(2 * LogSeries(zi, Quot(zi * zi, one), one, k).1, Times(one as real, LogSum(z, k)), 2 + 6 * k)
  {
    var zi, z := m * one / d, m as real / d as real;
    RatioIsShort(m, one, d);
    SquareShort(zi, z, one);
    var qi := Quot(zi * zi, one);
    LogSeriesShort(zi, qi, z, one, k);
    Doubled(LogSeries(zi, qi, one, k).1, one as real, OddSum(z, k), 1 + 3 * k);
  }

  lemma Doubled(sum: int, u: real, s: real, m: int)
    requires ShortBy(sum, Times(u, s), m)
    ensures ShortBy(2 * sum, Times(u, 2.0 * s), 2 * m)
  {
    assert Times(u, 2.0 * s) == 2.0 * Times(u, s);
  }

  lemma SeriesAbove(a: nat, one: nat, k: nat)
    requires 0 < one <= a
    ensures ShortBy(SeriesLn(a, one, k), Times(one as real, LogSum(Ratio(a, one), k)), 2 + 6 * k)
  {
    MulMono(0, a - one, one);
    RatioSeries(a - one, a + one, one, k);
  }

  /** The series of a number below one, from the ratio with its sign turned. */
  lemma LnMirrored(a: nat, one: nat, k: nat, zi: int)
    requires a <= one && one > 0 && zi == (one - a) * one / (a + one)
    ensures -SeriesLn(a, one, k) == 2 * LogSeries(zi, Quot(zi * zi, one), one, k).1
  {
    var m := one - a;
    MulMono(0, m, one);
    ProductOdd(m, one);
    QuotOdd(m * one, a + one);
    ProductOdd(zi, zi);
    LogSeriesOdd(zi, Quot(zi * zi, one), one, k);
  }

  lemma SeriesBelow(a: nat, one: nat, k: nat)
    requires a <= one && one > 0
    ensures ShortBy(-SeriesLn(a, one, k), Times(one as real, -LogSum(Ratio(a, one), k)), 2 + 6 * k)
  {
    var m, d := one - a, a + one;
    var z := m as real / d as real;
    RatioSeries(m, d, one, k);
    LnMirrored(a, one, k, m * one / d);
    Quotient(m as real, d as real);
    OddSumOdd(z, k);
  }

  /**
   The rounded logarithm of any number by any number of terms: it is twice the exact sum
   z + z^3 / 3 + ... at the exact ratio z = (a - one) / (a + one), short of it toward zero by at most
   2 + 6 * k units.
   */
  lemma SeriesTheorem(a: nat, one: nat, k: nat)
    requires one > 0
    ensures a >= one ==> ShortBy(SeriesLn(a, one, k), Times(one as real, LogSum(Ratio(a, one), k)), 2 + 6 * k)
    ensures a <= one ==> ShortBy(-SeriesLn(a, one, k), Times(one as real, -LogSum(Ratio(a, one), k)), 2 + 6 * k)
  {
    if a >= one {
      SeriesAbove(a, one, k);
    }
    if a <= one {
      SeriesBelow(a, one, k);
    }
  }
}
