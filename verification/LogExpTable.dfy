/**
 What the precomputed constants stand for: each is the natural exponential of its exponent, to 20 digits.
 The exponential of 1 / 16 is bracketed by its Taylor series, and the others by squaring.
 */
module LogExpTable {
  import opened RealErrors
  import opened NaturalExponential
  import opened ExponentialSeries
  import opened LogExpConstants

  const SCALE: int := 1_000_000_000_000_000_000_000_000_000_000
  const FINE: int := 1_000_000 * SCALE

  /** The exponent of the n-th constant: 128 for the first, and half as much for each further one. */
  function Exponent(n: nat): real
    requires n <= 11
    decreases 11 - n
  {
    if n == 11 then 0.0625 else 2.0 * Exponent(n + 1)
  }

  // ---------------------------------------------------------------- the exponential of 1 / 16

  /** The n-th Taylor term at 1 / 16, rounded down. */
  function TermFloor(n: nat): int {
    if n == 0 then FINE else TermFloor(n - 1) / (16 * n)
  }

  function SumFloor(n: nat): int {
    if n == 0 then FINE else SumFloor(n - 1) + TermFloor(n)
  }

  lemma {:induction false} TermBracket(n: nat)
    ensures TermFloor(n) as real <= FINE as real * TaylorTerm(0.0625, n) <= TermFloor(n) as real + 2.0
  {
    if n > 0 {
      TermBracket(n - 1);
      TermTimes(0.0625, n);
      DividedBracket(TermFloor(n - 1), 16 * n, FINE as real * TaylorTerm(0.0625, n - 1), FINE as real * TaylorTerm(0.0625, n));
    }
  }

  lemma DividedBracket(v: int, d: int, x: real, y: real)
    requires d >= 16 && v as real <= x <= v as real + 2.0 && d as real * y == x
    ensures (v / d) as real <= y <= (v / d) as real + 2.0
  {
    var q, dr := v / d, d as real;
    assert q * d <= v <= q * d + d;
    assert (q * d) as real == q as real * dr;
    if y < q as real {
      RealMulMono(y, q as real, dr);
    }
    if y > q as real + 2.0 {
      RealMulMono(q as real + 2.0, y, dr);
    }
  }

  lemma {:induction false} SumBracket(n: nat)
    ensures SumFloor(n) as real <= FINE as real * TaylorSum(0.0625, n) <= (SumFloor(n) + 2 * n) as real
  {
    if n > 0 {
      SumBracket(n - 1);
      TermBracket(n);
    }
  }

  // ---------------------------------------------------------------- and by squaring all others

  /** Lower bounds for the exponentials of the exponents, in units of SCALE. */
  function Low(n: nat): int
    requires n <= 11
  {
    if n == 0 then 38877084059945950922226736779514360835114054446854945561124838736691037918945775025587
    else if n == 1 then 6235149080811616882909238700583808009925258736460819858323
    else if n == 2 then 78962960182680695160978022582269135388934852
    else if n == 3 then 8886110520507872636763023737808322304
    else if n == 4 then 2980957987041728274743592098954202
    else if n == 5 then 54598150033144239078110261198294
    else if n == 6 then 7389056098930650227230427460266
    else if n == 7 then 2718281828459045235360287471296
    else if n == 8 then 1648721270700128146848650787797
    else if n == 9 then 1284025416687741484073420568056
    else if n == 10 then 1133148453066826316829007227809
    else 1064494458917859429563390594642
  }

  /** Upper bounds for them. */
  function High(n: nat): int
    requires n <= 11
  {
    if n == 0 then 38877084059945950922226736944871558787637268428581626761197729829110413194027369198046
    else if n == 1 then 6235149080811616882909238713843891755268441317486203028713
    else if n == 2 then 78962960182680695160978022666233083261874252
    else if n == 3 then 8886110520507872636763023742532771076
    else if n == 4 then 2980957987041728274743592099746640
    else if n == 5 then 54598150033144239078110261205551
    else if n == 6 then 7389056098930650227230427460757
    else if n == 7 then 2718281828459045235360287471386
    else if n == 8 then 1648721270700128146848650787824
    else if n == 9 then 1284025416687741484073420568066
    else if n == 10 then 1133148453066826316829007227813
    else 1064494458917859429563390594643
  }

  ghost predicate InBracket(u: real, lo: int, hi: int) {
    0 <= lo && lo as real <= Times(SCALE as real, u) <= hi as real
  }

  lemma SquareOrder(u: real, l: real, h: real, s: real)
    requires 0.0 <= l <= Times(s, u) <= h
    ensures Times(l, l) <= Times(s, Times(s, Times(u, u))) <= Times(h, h)
  {
    var v := Times(s, u);
    TimesMono(l, v, l);
    TimesMono(l, v, v);
    TimesMono(v, h, v);
    TimesMono(v, h, h);
    TimesSymmetric(l, v);
    TimesSymmetric(v, h);
    assert Times(v, v) == Times(s, Times(s, Times(u, u)));
  }

  lemma SquareBracket(u: real, lo: int, hi: int, lo': int, hi': int)
    requires InBracket(u, lo, hi) && 0 <= lo' && lo' * SCALE <= lo * lo && hi * hi <= hi' * SCALE
    ensures InBracket(Times(u, u), lo', hi')
  {
    var s, l, h, v := SCALE as real, lo as real, hi as real, Times(SCALE as real, Times(u, u));
    SquareOrder(u, l, h, s);
    IntegerProduct(lo, lo);
    IntegerProduct(hi, hi);
    IntegerProduct(lo', SCALE);
    IntegerProduct(hi', SCALE);
    TimesSymmetric(s, v);
    ByWeight(lo' as real, v, s);
    ByWeight(v, hi' as real, s);
  }

  lemma IntegerProduct(a: int, b: int)
    ensures (a * b) as real == Times(a as real, b as real)
  {
  }

  lemma SquaresFit(n: nat)
    requires n <= 10
    ensures 0 <= Low(n) && Low(n) * SCALE <= Low(n + 1) * Low(n + 1) && High(n + 1) * High(n + 1) <= High(n) * SCALE
  {
  }

  /** As many Taylor terms as the fine scale has use for. */
  const TERMS: nat := 18

  lemma SixteenthFits()
    ensures 0 <= Low(11) && Low(11) * 1_000_000 <= SumFloor(TERMS) && SumFloor(TERMS) + 40 <= High(11) * 1_000_000
    ensures TermFloor(TERMS + 1) == 0
  {
    assert TermFloor(1) == 62500000000000000000000000000000000;
    assert SumFloor(1) == 1062500000000000000000000000000000000;
    assert TermFloor(2) == 1953125000000000000000000000000000;
    assert SumFloor(2) == 1064453125000000000000000000000000000;
    assert TermFloor(3) == 40690104166666666666666666666666;
    assert SumFloor(3) == 1064493815104166666666666666666666666;
    assert TermFloor(4) == 635782877604166666666666666666;
    assert SumFloor(4) == 1064494450887044270833333333333333332;
    assert TermFloor(5) == 7947285970052083333333333333;
    assert SumFloor(5) == 1064494458834330240885416666666666665;
    assert TermFloor(6) == 82784228854709201388888888;
    assert SumFloor(6) == 1064494458917114469740125868055555553;
    assert TermFloor(7) == 739144900488475012400793;
    assert SumFloor(7) == 1064494458917853614640614343067956346;
    assert TermFloor(8) == 5774569535066211034381;
    assert SumFloor(8) == 1064494458917859389210149409278990727;
    assert TermFloor(9) == 40101177326848687738;
    assert SumFloor(9) == 1064494458917859429311326736127678465;
    assert TermFloor(10) == 250632358292804298;
    assert SumFloor(10) == 1064494458917859429561959094420482763;
    assert TermFloor(11) == 1424047490300024;
    assert SumFloor(11) == 1064494458917859429563383141910782787;
    assert TermFloor(12) == 7416914011979;
    assert SumFloor(12) == 1064494458917859429563390558824794766;
    assert TermFloor(13) == 35658240442;
    assert SumFloor(13) == 1064494458917859429563390594483035208;
    assert TermFloor(14) == 159188573;
    assert SumFloor(14) == 1064494458917859429563390594642223781;
    assert TermFloor(15) == 663285;
    assert SumFloor(15) == 1064494458917859429563390594642887066;
    assert TermFloor(16) == 2590;
    assert SumFloor(16) == 1064494458917859429563390594642889656;
    assert TermFloor(17) == 9;
    assert SumFloor(17) == 1064494458917859429563390594642889665;
    assert TermFloor(18) == 0;
    assert SumFloor(18) == 1064494458917859429563390594642889665;
    assert TermFloor(19) == 0;
  }

  /** What n terms say of the exponential, with the next one vanishing on the fine scale. */
  ghost predicate Fine(v: real, sum: int, n: nat) {
    sum as real <= FINE as real * v <= (sum + 2 * n + 4) as real
  }

  lemma FineTerms(n: nat)
    requires TermFloor(n + 1) == 0
    ensures Fine(TaylorSum(0.0625, n), SumFloor(n), n) && Fine(TaylorTop(0.0625, n), SumFloor(n), n)
  {
    SumBracket(n);
    TermBracket(n + 1);
    TermsPositive(0.0625, n + 1);
  }

  lemma FineBetween(u: real, v: real, w: real, sum: int, n: nat)
    requires u <= v <= w && Fine(u, sum, n) && Fine(w, sum, n)
    ensures Fine(v, sum, n)
  {
  }

  lemma FineBracket(v: real, sum: int, n: nat, lo: int, hi: int)
    requires Fine(v, sum, n) && n <= 18
    requires 0 <= lo && lo * 1_000_000 <= sum && sum + 40 <= hi * 1_000_000
    ensures InBracket(v, lo, hi)
  {
  }

  lemma ByTerms(e: real -> real, n: nat)
    requires IsExponential(e) && 0 < n && TermFloor(n + 1) == 0
    ensures Fine(e(0.0625), SumFloor(n), n)
  {
    TaylorTheorem(e, 0.0625, n);
    FineTerms(n);
    FineBetween(TaylorSum(0.0625, n), e(0.0625), TaylorTop(0.0625, n), SumFloor(n), n);
  }

  lemma Sixteenth(e: real -> real)
    requires IsExponential(e)
    ensures InBracket(e(0.0625), Low(11), High(11))
  {
    SixteenthFits();
    ByTerms(e, TERMS);
    FineBracket(e(0.0625), SumFloor(TERMS), TERMS, Low(11), High(11));
  }

  lemma {:induction false} Exponentials(e: real -> real, n: nat)
    requires IsExponential(e) && n <= 11
    ensures InBracket(e(Exponent(n)), Low(n), High(n))
    decreases 11 - n
  {
    if n == 11 {
      Sixteenth(e);
    } else {
      var x := Exponent(n + 1);
      Exponentials(e, n + 1);
      assert AddsUp(e, x, x);
      SquaresFit(n);
      SquareBracket(e(x), Low(n + 1), High(n + 1), Low(n), High(n));
    }
  }

  // ---------------------------------------------------------------- the constants

  /** Half a unit of the twentieth digit after the first. */
  const HALF_DIGIT: real := 0.5 / ONE_20 as real

  const TWICE: int := 2 * ONE_20

  lemma ScaledUp(s: real, a: real, b: real, lo: int, hi: int)
    requires s > 0.0 && Times(s, a) <= hi as real && lo as real <= Times(s, b) && hi * TWICE <= lo * (TWICE + 1)
    ensures a <= Times(b, 1.0 + HALF_DIGIT)
  {
    assert Times(Times(b, 1.0 + HALF_DIGIT), s) == Times(Times(s, b), 1.0 + HALF_DIGIT);
    TimesMono(lo as real, Times(s, b), 1.0 + HALF_DIGIT);
    TimesSymmetric(s, a);
    ByWeight(a, Times(b, 1.0 + HALF_DIGIT), s);
  }

  lemma ByBracket(e: real -> real, a: real, u: real, num: int, lo: int, hi: int)
    requires IsExponential(e) && Times(SCALE as real, a) == num as real && InBracket(u, lo, hi) && a >= 0.0 && u >= 0.0
    requires num * TWICE <= lo * (TWICE + 1) && hi * TWICE <= num * (TWICE + 1)
    ensures Within(e, a, u, HALF_DIGIT)
  {
    ScaledUp(SCALE as real, a, u, lo, num);
    ScaledUp(SCALE as real, u, a, num, hi);
    WithinShare(e, a, u, HALF_DIGIT);
  }

  /** The n-th constant as the number it stands for, in units of SCALE. */
  function Constant(n: nat): int
    requires n <= 11
  {
    if n == 0 then A0 * SCALE else if n == 1 then A1 * SCALE else A(n) * 10_000_000_000
  }

  lemma ConstantFits(n: nat)
    requires n <= 11
    ensures 0 <= Constant(n)
    ensures Constant(n) * TWICE <= Low(n) * (TWICE + 1) && High(n) * TWICE <= Constant(n) * (TWICE + 1)
  {
  }

  lemma ExponentIs(n: nat)
    requires n <= 11
    ensures Exponent(n) == if n == 0 then X0 as real / ONE_18 as real
                           else if n == 1 then X1 as real / ONE_18 as real
                           else X(n) as real / ONE_20 as real
    decreases 11 - n
  {
    if n < 11 {
      ExponentIs(n + 1);
    }
  }

  /** Each constant is the exponential of its exponent, to half a unit of its twentieth decimal. */
  lemma ConstantsTheorem(e: real -> real, n: nat)
    requires IsExponential(e) && 2 <= n <= 11
    ensures Within(e, A(n) as real / ONE_20 as real, e(X(n) as real / ONE_20 as real), HALF_DIGIT)
  {
    Exponentials(e, n);
    ConstantFits(n);
    ExponentIs(n);
    Positive(e, Exponent(n));
    ByBracket(e, A(n) as real / ONE_20 as real, e(Exponent(n)), Constant(n), Low(n), High(n));
  }

  /** So are the two whole ones. */
  lemma WholeConstantsTheorem(e: real -> real)
    requires IsExponential(e)
    ensures Within(e, A0 as real, e(X0 as real / ONE_18 as real), HALF_DIGIT)
    ensures Within(e, A1 as real, e(X1 as real / ONE_18 as real), HALF_DIGIT)
  {
    Exponentials(e, 0);
    Exponentials(e, 1);
    ConstantFits(0);
    ConstantFits(1);
    ExponentIs(0);
    ExponentIs(1);
    Positive(e, Exponent(0));
    Positive(e, Exponent(1));
    ByBracket(e, A0 as real, e(Exponent(0)), Constant(0), Low(0), High(0));
    ByBracket(e, A1 as real, e(Exponent(1)), Constant(1), Low(1), High(1));
  }
}
