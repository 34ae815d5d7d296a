/** KyberDMM's power of a fraction by squaring, with every multiplication rounded down. */
module KyberPower {
  import opened Wrappers
  import opened Truncating
  import opened RealErrors
  import opened RoundedPowers

  const PRECISION: int := 1_000_000_000_000_000_000

  datatype PowerError = BaseAbovePrecision

  function MulInPrecision(x: int, y: int): int {
    Quot(x * y, PRECISION)
  }

  /** The squarings still to do once the lowest bit of the exponent has been used. */
  function PowFrom(x: int, z: int, c: nat): int
    decreases c
  {
    if c == 0 then z
    else
      var x' := MulInPrecision(x, x);
      PowFrom(x', if c % 2 != 0 then MulInPrecision(z, x') else z, c / 2)
  }

  function Pow(x: int, k: nat): int {
    PowFrom(x, if k % 2 == 0 then PRECISION else x, k / 2)
  }

  /** From this point of the loop on, both variables stay between nothing and the precision. */
  ghost predicate StaysWithinOne(x: int, z: int, c: nat)
    decreases c
  {
    && 0 <= x <= PRECISION && 0 <= z <= PRECISION
    && (c != 0 ==> StaysWithinOne(MulInPrecision(x, x),
                                  if c % 2 != 0 then MulInPrecision(z, MulInPrecision(x, x)) else z, c / 2))
  }

  lemma {:induction false} PowStaysWithinOne(x: int, z: int, c: nat)
    requires 0 <= x <= PRECISION && 0 <= z <= PRECISION
    ensures StaysWithinOne(x, z, c)
    decreases c
  {
    if c != 0 {
      var x' := MulInPrecision(x, x);
      MulRounds(x, x);
      MulRounds(z, x');
      PowStaysWithinOne(x', if c % 2 != 0 then MulInPrecision(z, x') else z, c / 2);
    }
  }

  method UnsafePowInPrecision(x: nat, k: nat) returns (r: Result<int, PowerError>)
    ensures r == if x > PRECISION then Failure(BaseAbovePrecision) else Success(Pow(x, k))
    ensures x <= PRECISION ==> StaysWithinOne(x, if k % 2 == 0 then PRECISION else x, k / 2)
  {
    if x > PRECISION {
      return Failure(BaseAbovePrecision);
    }
    var xInPrecision := x;
    var zInPrecision := if k % 2 == 0 then PRECISION else xInPrecision;
    var c: nat := k / 2;
    PowStaysWithinOne(xInPrecision, zInPrecision, c);
    while c != 0
      invariant PowFrom(xInPrecision, zInPrecision, c) == Pow(x, k)
      invariant StaysWithinOne(xInPrecision, zInPrecision, c)
    {
      xInPrecision := MulInPrecision(xInPrecision, xInPrecision);
      if c % 2 != 0 {
        zInPrecision := MulInPrecision(zInPrecision, xInPrecision);
      }
      c := c / 2;
    }
    r := Success(zInPrecision);
  }

  const LOST: real := 1.0 / UNIT

  lemma FloorFraction(w: int, p: int)
    requires w * ONE <= p <= w * ONE + ONE
    ensures 0.0 <= p as real / (UNIT * UNIT) - Fraction(w) <= LOST
  {
  }

  lemma FractionProduct(z: int, a: int)
    ensures Times(Fraction(z), Fraction(a)) == (z * a) as real / (UNIT * UNIT)
  {
    assert (z * a) as real == z as real * a as real;
  }

  lemma MulRounds(z: int, a: int)
    requires 0 <= z <= ONE && 0 <= a <= ONE
    ensures RoundedProduct(MulInPrecision(z, a), z, a, LOST, 0.0)
    ensures z == ONE ==> MulInPrecision(z, a) == a
  {
    var w := MulInPrecision(z, a);
    MulMono(0, z, a);
    MulMono(z, ONE, a);
    FloorBracket(z * a, ONE);
    FloorAtLeast(z * a, ONE, 0);
    FloorFraction(w, z * a);
    FractionProduct(z, a);
  }

  lemma {:induction false} PowFromApproximates(x: real, a: int, z: int, c: nat, m: nat, n: nat, k: nat)
    requires 0.0 <= x <= 1.0 && n >= 1 && k == m + 2 * (n * c)
    requires Approximates(z, x, m, LOST, 0.0) && Approximates(a, x, n, LOST, 0.0)
    ensures Approximates(PowFrom(a, z, c), x, k, LOST, 0.0)
    decreases c
  {
    if c != 0 {
      var a' := MulInPrecision(a, a);
      MulRounds(a, a);
      PowersMultiply(a', a, a, x, n, n, LOST, 0.0);
      MulRounds(z, a');
      HalvedExponent(n, c);
      if c % 2 != 0 {
        PowersMultiply(MulInPrecision(z, a'), z, a', x, m, n + n, LOST, 0.0);
        PowFromApproximates(x, a', MulInPrecision(z, a'), c / 2, m + (n + n), n + n, k);
      } else {
        PowFromApproximates(x, a', z, c / 2, m, n + n, k);
      }
    }
  }

  /** In units, m roundings down take at most m. */
  lemma LostUnits(m: nat)
    ensures Times(UNIT * LOST, m as real) == m as real && Times(UNIT * 0.0, m as real) == 0.0
  {
  }

  lemma LowByUnits(z: int, s: real, m: nat)
    requires Between(Fraction(z), s, LOST, 0.0, m)
    ensures -(m as real) <= z as real - UNIT * s <= 0.0
  {
    ScaledError(z, s, LOST, 0.0, m);
    LostUnits(m);
  }

  lemma PowApproximates(x: nat, k: nat)
    requires x <= PRECISION && k >= 1
    ensures Approximates(Pow(x, k), Fraction(x), k, LOST, 0.0)
  {
    var f := Fraction(x);
    assert Power(f, 1) == Times(f, Power(f, 0)) == f;
    PowFromApproximates(f, x, if k % 2 == 0 then PRECISION else x, k / 2, k % 2, 1, k);
  }

  /**
   For a base up to one, the computed k-th power never exceeds the exact one and falls short of it
   by at most k - 1 units.
   */
  lemma PowerTheorem(x: nat, k: nat)
    requires x <= PRECISION && k >= 1
    ensures 0 <= Pow(x, k) <= PRECISION
    ensures -((k - 1) as real) <= Pow(x, k) as real - UNIT * Power(Fraction(x), k) <= 0.0
  {
    var m := k - 1;
    PowApproximates(x, k);
    LowByUnits(Pow(x, k), Power(Fraction(x), k), m);
  }
}
