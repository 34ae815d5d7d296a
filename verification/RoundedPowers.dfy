/**
 Square-and-multiply on fixed-point fractions: the error of a rounded power grows by one rounding
 per factor, so it is linear in the exponent.
 */
module RoundedPowers {
  import opened RealErrors

  const ONE: int := 1_000_000_000_000_000_000
  const UNIT: real := ONE as real

  ghost function Power(x: real, n: nat): real {
    if n == 0 then 1.0 else Times(x, Power(x, n - 1))
  }

  /** A fixed-point number as the fraction it stands for. */
  ghost function Fraction(a: int): real {
    a as real / UNIT
  }

  lemma TimesAssociative(x: real, y: real, z: real)
    ensures Times(x, Times(y, z)) == Times(Times(x, y), z)
  {
  }

  lemma {:induction false} PowerAdd(x: real, m: nat, n: nat)
    ensures Power(x, m + n) == Times(Power(x, m), Power(x, n))
    decreases m
  {
    if m == 0 {
      assert Times(1.0, Power(x, n)) == Power(x, n);
    } else {
      PowerAdd(x, m - 1, n);
      TimesAssociative(x, Power(x, m - 1), Power(x, n));
    }
  }

  lemma {:induction false} PowerOfFraction(x: real, n: nat)
    requires 0.0 <= x <= 1.0
    ensures 0.0 <= Power(x, n) <= 1.0
  {
    if n != 0 {
      PowerOfFraction(x, n - 1);
      UnitProduct(x, Power(x, n - 1));
    }
  }

  lemma UnitProduct(u: real, v: real)
    requires 0.0 <= u <= 1.0 && 0.0 <= v <= 1.0
    ensures 0.0 <= Times(u, v) <= v
  {
    TimesMono(0.0, u, v);
    TimesMono(u, 1.0, v);
  }

  /** u lies between el * m below s and eh * m above it. */
  ghost predicate Between(u: real, s: real, el: real, eh: real, m: nat) {
    -Times(el, m as real) <= u - s <= Times(eh, m as real)
  }

  /**
   z stands for the n-th power of x: it is exact for n = 0, and otherwise n - 1 roundings away, each
   of which errs by at most el downwards and eh upwards.
   */
  ghost predicate Approximates(z: int, x: real, n: nat, el: real, eh: real) {
    && 0 <= z <= ONE
    && (n == 0 ==> z == ONE)
    && (n >= 1 ==> Between(Fraction(z), Power(x, n), el, eh, n - 1))
  }

  /** One rounded multiplication: w is z * a / ONE with at most el lost and eh gained. */
  ghost predicate RoundedProduct(w: int, z: int, a: int, el: real, eh: real) {
    0 <= w <= ONE && -el <= Fraction(w) - Times(Fraction(z), Fraction(a)) <= eh
  }

  lemma ShrunkError(d: real, u: real, el: real, eh: real, m: nat)
    requires 0.0 <= u <= 1.0 && el >= 0.0 && eh >= 0.0
    requires -Times(el, m as real) <= d <= Times(eh, m as real)
    ensures -Times(el, m as real) <= Times(d, u) <= Times(eh, m as real)
  {
    if d >= 0.0 {
      TimesMono(u, 1.0, d);
      TimesMono(0.0, u, d);
    } else {
      TimesMono(u, 1.0, -d);
      TimesMono(0.0, u, -d);
      SignedProduct(u, d);
    }
    TimesSymmetric(d, u);
    TimesSymmetric(-d, u);
    TimesMono(0.0, el, m as real);
    TimesMono(0.0, eh, m as real);
  }

  lemma CountedErrors(e: real, m: nat, n: nat)
    ensures Times(e, m as real) + Times(e, n as real) + e == Times(e, (m + n + 1) as real)
  {
  }

  /** Errors add up under a rounded multiplication, plus the one rounding. */
  lemma ProductError(u: real, v: real, s: real, t: real, w: real, el: real, eh: real, m: nat, n: nat)
    requires el >= 0.0 && eh >= 0.0 && 0.0 <= u <= 1.0 && 0.0 <= t <= 1.0
    requires Between(u, s, el, eh, m) && Between(v, t, el, eh, n)
    requires -el <= w - Times(u, v) <= eh
    ensures Between(w, Times(s, t), el, eh, m + n + 1)
  {
    ShrunkError(v - t, u, el, eh, n);
    ShrunkError(u - s, t, el, eh, m);
    DifferenceOfProducts(v, t, u);
    DifferenceOfProducts(u, s, t);
    TimesSymmetric(u, v);
    TimesSymmetric(u, t);
    CountedErrors(el, m, n);
    CountedErrors(eh, m, n);
  }

  /** Multiplying approximations of two powers approximates the power of the sum. */
  lemma PowersMultiply(w: int, z: int, a: int, x: real, m: nat, n: nat, el: real, eh: real)
    requires 0.0 <= x <= 1.0 && el >= 0.0 && eh >= 0.0 && n >= 1
    requires Approximates(z, x, m, el, eh) && Approximates(a, x, n, el, eh)
    requires RoundedProduct(w, z, a, el, eh) && (z == ONE ==> w == a)
    ensures Approximates(w, x, m + n, el, eh)
  {
    if m >= 1 {
      PowerAdd(x, m, n);
      PowerOfFraction(x, n);
      ProductError(Fraction(z), Fraction(a), Power(x, m), Power(x, n), Fraction(w), el, eh, m - 1, n - 1);
    }
  }

  /** Squaring the base while halving the exponent that is left. */
  lemma HalvedExponent(n: nat, c: nat)
    ensures 2 * (n * c) == 2 * ((n + n) * (c / 2)) + (if c % 2 != 0 then n + n else 0)
  {
    var h := c / 2;
    assert c == 2 * h + c % 2;
    assert n * c == n * (2 * h) + n * (c % 2);
  }

  /** The accumulated bound, in units of the fixed-point representation. */
  lemma ScaledError(z: int, s: real, el: real, eh: real, m: nat)
    requires Between(Fraction(z), s, el, eh, m)
    ensures -Times(UNIT * el, m as real) <= z as real - UNIT * s <= Times(UNIT * eh, m as real)
  {
    assert z as real == UNIT * Fraction(z);
  }
}
