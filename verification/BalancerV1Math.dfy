/**
 Balancer V1 fixed-point mathematics (18 decimals, half-up rounding): the power series behind the
 swap formulas, and the pool guard that feeds it.

 A loop of the source is a method here, proved equal to a specification function (`Powi`, `Series`);
 what the source promises is then proved about those functions.
 */
module BalancerV1Math {
  import opened Wrappers
  import opened Truncating

  const BONE: int := 1_000_000_000_000_000_000
  const MIN_BPOW_BASE: int := 1
  const MAX_BPOW_BASE: int := 2 * BONE - 1
  const BPOW_PRECISION: int := 100_000_000

  /** The series loop is only known to stop when the base stays this far from 0 and from 2. */
  const SERIES_MARGIN: int := 40_000_000_000

  datatype MathError = SubUnderflow | DivZero | BaseTooLow | BaseTooHigh

  // ---------------------------------------------------------------- operations

  function Btoi(a: int): int {
    Quot(a, BONE)
  }

  function Bfloor(a: int): int {
    Btoi(a) * BONE
  }

  function BsubSign(a: int, b: int): (int, bool) {
    if a >= b then (a - b, false) else (b - a, true)
  }

  function Bsub(a: int, b: int): Result<int, MathError> {
    var (c, flag) := BsubSign(a, b);
    if flag then Failure(SubUnderflow) else Success(c)
  }

  function Bmul(a: int, b: int): int {
    Quot(a * b + BONE / 2, BONE)
  }

  function Bdiv(a: int, b: int): Result<int, MathError> {
    if b == 0 then Failure(DivZero) else Success(Quot(a * BONE + Quot(b, 2), b))
  }

  /** The squarings still to do once the lowest bit of the exponent has been used. */
  function PowiFrom(a: int, z: int, n: nat): int
    decreases n
  {
    if n == 0 then z
    else
      var a' := Bmul(a, a);
      PowiFrom(a', if n % 2 != 0 then Bmul(z, a') else z, n / 2)
  }

  function Powi(a: int, n: nat): int {
    PowiFrom(a, if n % 2 != 0 then a else BONE, n / 2)
  }

  /** From this point of the loop on, both variables stay between nothing and one. */
  ghost predicate StaysWithinOne(a: int, z: int, n: nat)
    decreases n
  {
    && 0 <= a <= BONE && 0 <= z <= BONE
    && (n != 0 ==> StaysWithinOne(Bmul(a, a), if n % 2 != 0 then Bmul(z, Bmul(a, a)) else z, n / 2))
  }

  lemma {:induction false} PowiStaysWithinOne(a: int, z: int, n: nat)
    requires 0 <= a <= BONE && 0 <= z <= BONE
    ensures StaysWithinOne(a, z, n)
    decreases n
  {
    if n != 0 {
      BmulShare(a, a);
      BmulShare(z, Bmul(a, a));
      PowiStaysWithinOne(Bmul(a, a), if n % 2 != 0 then Bmul(z, Bmul(a, a)) else z, n / 2);
    }
  }

  method Bpowi(base: int, exponent: nat) returns (z: int)
    ensures z == Powi(base, exponent)
    ensures 0 <= base <= BONE ==> StaysWithinOne(base, if exponent % 2 != 0 then base else BONE, exponent / 2)
  {
    var a, n := base, exponent;
    z := if n % 2 != 0 then a else BONE;
    n := n / 2;
    if 0 <= base <= BONE {
      PowiStaysWithinOne(a, z, n);
    }
    while n != 0
      invariant PowiFrom(a, z, n) == Powi(base, exponent)
      invariant 0 <= base <= BONE ==> StaysWithinOne(a, z, n)
    {
      a := Bmul(a, a);
      if n % 2 != 0 {
        z := Bmul(z, a);
      }
      n := n / 2;
    }
  }

  /** The mutable variables of the series loop; `i` is the number of the next iteration. */
  datatype Loop = Loop(i: int, term: int, sum: int, negative: bool)

  const FirstLoop := Loop(1, BONE, BONE, false)

  /** The distance of a base from one, and the side it lies on. */
  predicate InSeriesRange(a: int, x: int) {
    0 <= a < BONE && 0 <= x <= BONE - SERIES_MARGIN
  }

  /** The size of iteration i's term, and whether its coefficient a - (i - 1) is negative. */
  function NextTerm(a: int, x: int, i: int, term: int): Result<(int, bool), MathError> {
    var bigK := i * BONE;
    var below :- Bsub(bigK, BONE);
    var (c, cneg) := BsubSign(a, below);
    var t :- Bdiv(Bmul(term, Bmul(c, x)), bigK);
    Success((t, cneg))
  }

  function AddTerm(l: Loop, t: int, cneg: bool, xneg: bool): Result<Loop, MathError> {
    var negative := (l.negative != xneg) != cneg;
    if negative then
      var sum :- Bsub(l.sum, t);
      Success(Loop(l.i + 1, t, sum, negative))
    else
      Success(Loop(l.i + 1, t, l.sum + t, negative))
  }

  /** The whole series loop from a given point, ending with the final values of its variables. */
  function Series(a: int, x: int, xneg: bool, l: Loop): Result<Loop, MathError>
    requires InSeriesRange(a, x) && l.i >= 1
    decreases l.term
  {
    if l.term < BPOW_PRECISION then Success(l)
    else
      NextTermExists(a, x, l.i, l.term);
      var (t, cneg) :- NextTerm(a, x, l.i, l.term);
      if t == 0 then Success(l.(term := 0))
      else
        var l' :- AddTerm(l, t, cneg, xneg);
        Series(a, x, xneg, l')
  }

  method BpowApprox(base: int, exp: int, precision: int) returns (r: Result<int, MathError>)
    requires SERIES_MARGIN <= base <= 2 * BONE - SERIES_MARGIN && 0 <= exp < BONE && precision == BPOW_PRECISION
    ensures r == ApproxPower(base, exp)
  {
    var a := exp;
    var (x, xneg) := BsubSign(base, BONE);
    var term := BONE;
    var sum := term;
    var negative := false;
    var i := 1;
    ghost var whole := Series(a, x, xneg, FirstLoop);
    while term >= precision
      invariant i >= 1
      invariant Series(a, x, xneg, Loop(i, term, sum, negative)) == whole
      decreases term
    {
      NextTermExists(a, x, i, term);
      ghost var before := Loop(i, term, sum, negative);
      var bigK := i * BONE;
      var below := Bsub(bigK, BONE).value;
      var (c, cneg) := BsubSign(a, below);
      term := Bmul(term, Bmul(c, x));
      term := Bdiv(term, bigK).value;
      if term == 0 {
        break;
      }
      if xneg {
        negative := !negative;
      }
      if cneg {
        negative := !negative;
      }
      if negative {
        sum :- Bsub(sum, term);
      } else {
        sum := sum + term;
      }
      i := i + 1;
      assert AddTerm(before, term, cneg, xneg) == Success(Loop(i, term, sum, negative));
    }
    r := Success(sum);
  }

  function ApproxPower(base: int, exp: int): Result<int, MathError>
    requires SERIES_MARGIN <= base <= 2 * BONE - SERIES_MARGIN && 0 <= exp < BONE
  {
    var (x, xneg) := BsubSign(base, BONE);
    var l :- Series(exp, x, xneg, FirstLoop);
    Success(l.sum)
  }

  // ---------------------------------------------------------------- one term

  lemma HalfUp(n: int, d: int)
    requires n >= 0 && d > 0 && d % 2 == 0
    ensures 0 <= Quot(n + d / 2, d)
    ensures 2 * n - d < 2 * (Quot(n + d / 2, d) * d) <= 2 * n + d
  {
    FloorBracket(n + d / 2, d);
    FloorAtLeast(n + d / 2, d, 0);
  }

  lemma BmulBracket(a: int, b: int)
    requires a >= 0 && b >= 0
    ensures 0 <= Bmul(a, b)
    ensures 2 * (a * b) - BONE < 2 * (Bmul(a, b) * BONE) <= 2 * (a * b) + BONE
  {
    MulMono(0, a, b);
    HalfUp(a * b, BONE);
  }

  lemma BmulShare(a: nat, b: int)
    requires 0 <= b <= BONE
    ensures 0 <= Bmul(a, b) <= a
  {
    MulMono(b, BONE, a);
    BmulBracket(a, b);
  }

  /** The distance of the exponent from i - 1: the size of iteration i's coefficient. */
  function Coefficient(a: int, i: int): int {
    var d := a - (i - 1) * BONE;
    if d >= 0 then d else -d
  }

  lemma CoefficientBound(a: int, i: int)
    requires 0 <= a < BONE && i >= 1
    ensures 0 <= Coefficient(a, i)
    ensures Coefficient(a, i) == if i == 1 then a else (i - 1) * BONE - a
  {
  }

  lemma DivByWhole(u: int, i: int, t: int)
    requires u >= 0 && i >= 1 && t == Quot(u * BONE + Quot(i * BONE, 2), i * BONE)
    ensures 0 <= t && 2 * u - i < 2 * (t * i) <= 2 * u + i
  {
    var h := i * (BONE / 2);
    var d := i * BONE;
    assert d == 2 * h && Quot(d, 2) == h;
    FloorBracket(u * BONE + h, d);
    FloorAtLeast(u * BONE + h, d, 0);
    assert t * d == (t * i) * BONE;
    assert (2 * (t * i) - 2 * u - i) * BONE <= 0;
    assert (2 * u + i - 2 * (t * i)) * BONE < 2 * i * BONE;
  }

  /** Iteration i never fails; its term comes from three half-up roundings. */
  lemma NextTermShape(a: int, x: int, i: int, term: int)
    requires InSeriesRange(a, x) && i >= 1 && term >= 0
    ensures NextTerm(a, x, i, term).Success?
    ensures NextTerm(a, x, i, term).value.1 <==> i >= 2
    ensures var u, t := Bmul(term, Bmul(Coefficient(a, i), x)), NextTerm(a, x, i, term).value.0;
            0 <= u && 0 <= t && 2 * u - i < 2 * (t * i) <= 2 * u + i
  {
    var c := Coefficient(a, i);
    CoefficientBound(a, i);
    BmulBracket(c, x);
    BmulBracket(term, Bmul(c, x));
    DivByWhole(Bmul(term, Bmul(c, x)), i, NextTerm(a, x, i, term).value.0);
  }

  lemma InnerBound(a: int, x: int, i: int)
    requires InSeriesRange(a, x) && i >= 1
    ensures 0 <= Bmul(Coefficient(a, i), x) <= (if i == 1 then 1 else i - 1) * x
  {
    var j := if i == 1 then 1 else i - 1;
    CoefficientBound(a, i);
    BmulBracket(Coefficient(a, i), x);
    MulMono(Coefficient(a, i), j * BONE, x);
    assert j * BONE * x == (j * x) * BONE;
  }

  lemma ShrinkArithmetic(i: int, x: int, term: int, m: int, u: int, t: int)
    requires i >= 1 && term >= 0 && x >= 0 && 0 <= m <= i * x
    requires 2 * (u * BONE) <= 2 * (term * m) + BONE
    requires 2 * (t * i) <= 2 * u + i
    ensures t * BONE <= term * x + BONE
  {
    var p, w := term * x, t * BONE;
    MulMono(m, i * x, term);
    assert term * (i * x) == i * p;
    assert (t * i) * BONE == w * i;
    assert 2 * (w * i) <= 2 * (i * p) + BONE + i * BONE;
    if w > p + BONE {
      MulMono(p + BONE + 1, w, i);
    }
  }

  /** A term shrinks by the distance of the base from one, up to one unit. */
  lemma TermShrinks(a: int, x: int, i: int, term: int)
    requires InSeriesRange(a, x) && i >= 1 && term >= 0
    ensures NextTerm(a, x, i, term).Success?
    ensures NextTerm(a, x, i, term).value.0 * BONE <= term * x + BONE
  {
    NextTermShape(a, x, i, term);
    InnerBound(a, x, i);
    var m := Bmul(Coefficient(a, i), x);
    MulMono(if i == 1 then 1 else i - 1, i, x);
    BmulBracket(term, m);
    ShrinkArithmetic(i, x, term, m, Bmul(term, m), NextTerm(a, x, i, term).value.0);
  }

  lemma NextTermExists(a: int, x: int, i: int, term: int)
    requires InSeriesRange(a, x) && i >= 1 && term >= 0
    ensures NextTerm(a, x, i, term).Success?
    ensures 0 <= NextTerm(a, x, i, term).value.0
    ensures term >= BPOW_PRECISION ==> NextTerm(a, x, i, term).value.0 < term
  {
    NextTermShape(a, x, i, term);
    TermShrinks(a, x, i, term);
    if term >= BPOW_PRECISION {
      var t := NextTerm(a, x, i, term).value.0;
      MulMono(x, BONE - SERIES_MARGIN, term);
      if t >= term {
        MulMono(term, t, BONE);
      }
    }
  }
}
