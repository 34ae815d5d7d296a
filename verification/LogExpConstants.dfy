/** The precomputed constants of Balancer V2's exponential and logarithm. */
module LogExpConstants {

  const ONE_18: int := 1_000_000_000_000_000_000
  const ONE_20: int := 100_000_000_000_000_000_000
  const ONE_36: int := ONE_18 * ONE_18

  const MAX_NATURAL_EXPONENT: int := 130_000_000_000_000_000_000
  const MIN_NATURAL_EXPONENT: int := -41_000_000_000_000_000_000
  const LN_36_LOWER_BOUND: int := 900_000_000_000_000_000
  const LN_36_UPPER_BOUND: int := 1_100_000_000_000_000_000
  const MAX_INT: int := 57896044618658097711785492504343953926634992332820282019728792003956564819967
  const TWO_254: int := 28948022309329048855892746252171976963317496166410141009864396001978282409984
  const MILD_EXPONENT_BOUND: int := TWO_254 / ONE_20

  // 18 decimals; A0 and A1 have none
  const X0: int := 128_000_000_000_000_000_000
  const A0: int := 38877084059945950922200000000000000000000000000000000000
  const X1: int := 64_000_000_000_000_000_000
  const A1: int := 6235149080811616882910000000

  /** x2 to x11, with 20 decimals: the powers of two from 2^5 down to 2^-4. */
  function X(n: int): int
    requires 2 <= n <= 11
  {
    if n == 2 then 3_200_000_000_000_000_000_000
    else if n == 3 then 1_600_000_000_000_000_000_000
    else if n == 4 then 800_000_000_000_000_000_000
    else if n == 5 then 400_000_000_000_000_000_000
    else if n == 6 then 200_000_000_000_000_000_000
    else if n == 7 then 100_000_000_000_000_000_000
    else if n == 8 then 50_000_000_000_000_000_000
    else if n == 9 then 25_000_000_000_000_000_000
    else if n == 10 then 12_500_000_000_000_000_000
    else 6_250_000_000_000_000_000
  }

  /** a2 to a11, with 20 decimals: the exponentials of x2 to x11. */
  function A(n: int): int
    requires 2 <= n <= 11
  {
    if n == 2 then 7896296018268069516100000000000000
    else if n == 3 then 888611052050787263676000000
    else if n == 4 then 298095798704172827474000
    else if n == 5 then 5459815003314423907810
    else if n == 6 then 738905609893065022723
    else if n == 7 then 271828182845904523536
    else if n == 8 then 164872127070012814685
    else if n == 9 then 128402541668774148407
    else if n == 10 then 113314845306682631683
    else 106449445891785942956
  }

  /** Each constant halves the one before, and e^x is at least 1 + x. */
  lemma Constants(n: int)
    requires 2 <= n <= 11
    ensures X(n) > 0 && A(n) >= ONE_20 + X(n)
    ensures n > 2 ==> X(n - 1) == 2 * X(n)
  {
  }
}
