/** The two roundings to a whole number that the code uses. */
module Rounding {

  /** Half away from zero, as fixed-point formatting with no decimals does. */
  function Rounded(x: real): int {
    if x >= 0.0 then (x + 0.5).Floor else -((-x + 0.5).Floor)
  }

  /** Half upward, as the language's own rounding function does. */
  function RoundHalfUp(x: real): (r: int)
    ensures -0.5 < r as real - x <= 0.5
  {
    (x + 0.5).Floor
  }

  lemma RoundedMono(x: real, y: real)
    requires x <= y
    ensures Rounded(x) <= Rounded(y)
  {
  }

  /** The nearest whole number; a half goes away from zero, so turning the sign turns the result. */
  lemma RoundedTheorem(x: real)
    ensures -0.5 <= Rounded(x) as real - x <= 0.5
    ensures Rounded(-x) == -Rounded(x)
    ensures x >= 0.0 && x - x.Floor as real == 0.5 ==> Rounded(x) == x.Floor + 1
  {
  }
}
