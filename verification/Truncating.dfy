/** Integer division as bigint defines it: the quotient is truncated toward zero. */
module Truncating {

  function Quot(a: int, b: int): (q: int)
    requires b != 0
  {
    if a >= 0 then a / b else -(-a / b)
  }

  function Rem(a: int, b: int): (r: int)
    requires b != 0
  {
    a - Quot(a, b) * b
  }

  /** The floor bracket of a quotient, in the form nonlinear proofs want it. */
  lemma FloorBracket(a: int, b: int)
    requires b > 0
    ensures (a / b) * b <= a < (a / b) * b + b
  {
  }

  lemma FloorAtLeast(a: int, b: int, k: int)
    requires b > 0 && k * b <= a
    ensures k <= a / b
  {
    FloorBracket(a, b);
    if a / b < k {
      MulMono(a / b + 1, k, b);
    }
  }

  lemma FloorBelow(a: int, b: int, k: int)
    requires b > 0 && a < k * b
    ensures a / b < k
  {
    FloorBracket(a, b);
    if k <= a / b {
      MulMono(k, a / b, b);
    }
  }

  lemma MulMono(a: int, b: int, c: int)
    requires a <= b && 0 <= c
    ensures a * c <= b * c
  {
  }

  lemma CancelRight(a: int, b: int, k: int)
    requires a * k <= b * k && k > 0
    ensures a <= b
  {
    if a > b {
      MulMono(b + 1, a, k);
    }
  }

  lemma FloorMono(a: int, a': int, b: int)
    requires b > 0 && a <= a'
    ensures a / b <= a' / b
  {
    FloorBracket(a, b);
    FloorAtLeast(a', b, a / b);
  }

  lemma NatQuotient(a: nat, b: int)
    requires b > 0
    ensures 0 <= a / b <= a
  {
    MulMono(1, b, a + 1);
    FloorBelow(a, b, a + 1);
    FloorAtLeast(a, b, 0);
  }

  lemma QuotSign(a: int, b: int)
    requires b > 0
    ensures a >= 0 ==> 0 <= Quot(a, b) == a / b <= a
    ensures a <= 0 ==> a <= Quot(a, b) <= 0
  {
    NatQuotient(if a >= 0 then a else -a, b);
  }

  /** Truncation toward zero is monotone in the dividend. */
  lemma QuotMono(a: int, a': int, b: int)
    requires b > 0 && a <= a'
    ensures Quot(a, b) <= Quot(a', b)
  {
    QuotSign(a, b);
    QuotSign(a', b);
    if a >= 0 {
      FloorMono(a, a', b);
    } else if a' < 0 {
      FloorMono(-a', -a, b);
    }
  }
}
