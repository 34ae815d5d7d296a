/**
 The natural exponential as a reference: the one function that turns sums into products and lies above
 its tangent 1 + x. Everything else about it that is used here follows from these two laws, by cutting an
 interval into ever more steps.
 */
module NaturalExponential {
  import opened RealErrors

  ghost predicate AddsUp(e: real -> real, x: real, y: real) {
    e(x + y) == Times(e(x), e(y))
  }

  ghost predicate AboveTangent(e: real -> real, x: real) {
    e(x) >= 1.0 + x
  }

  ghost predicate IsExponential(e: real -> real) {
    && (forall x: real, y: real :: AddsUp(e, x, y))
    && (forall x: real :: AboveTangent(e, x))
  }

  // ---------------------------------------------------------------- first consequences

  lemma AtZero(e: real -> real)
    requires IsExponential(e)
    ensures e(0.0) == 1.0
  {
    assert AddsUp(e, 0.0, 0.0) && AboveTangent(e, 0.0);
    var u := e(0.0);
    assert Times(u, u) == u;
    if u > 1.0 {
      RealMulMono(1.0, u, u);
    }
  }

  lemma Opposite(e: real -> real, x: real)
    requires IsExponential(e)
    ensures Times(e(x), e(-x)) == 1.0
  {
    AtZero(e);
    assert AddsUp(e, x, -x);
    assert x + -x == 0.0;
  }

  lemma Positive(e: real -> real, x: real)
    requires IsExponential(e)
    ensures e(x) > 0.0
  {
    var h := x / 2.0;
    assert AddsUp(e, h, h) && h + h == x;
    Opposite(e, h);
    Square(e(h), e(-h));
  }

  lemma Square(u: real, v: real)
    requires Times(u, v) == 1.0
    ensures Times(u, u) > 0.0
  {
    if u > 0.0 {
      RealMulMono(0.0, u, u);
    } else if u < 0.0 {
      RealMulMono(0.0, -u, -u);
      SignedProduct(u, u);
    }
  }

  lemma Monotone(e: real -> real, x: real, y: real)
    requires IsExponential(e) && x <= y
    ensures e(x) <= e(y)
    ensures x < y ==> e(x) < e(y)
  {
    var d := y - x;
    assert AddsUp(e, x, d) && AboveTangent(e, d) && x + d == y;
    Positive(e, x);
    if x < y {
      RealMulMono(1.0, e(d), e(x));
      TimesSymmetric(e(x), e(d));
    }
  }

  /** The exponential is at most 1 / (1 - x). */
  lemma BelowInverse(e: real -> real, x: real)
    requires IsExponential(e)
    ensures Times(e(x), 1.0 - x) <= 1.0
  {
    Opposite(e, x);
    Positive(e, x);
    assert AboveTangent(e, -x);
    TimesMono(1.0 - x, e(-x), e(x));
    TimesSymmetric(e(x), e(-x));
    TimesSymmetric(e(x), 1.0 - x);
  }

  // ---------------------------------------------------------------- comparison

  /** One step of f grows at most as the exponential of g does, but for a quadratic error. */
  ghost predicate StepAtMost(f: real -> real, g: real -> real, c: real, x: real, h: real) {
    f(x + h) <= Times(f(x), 1.0 + (g(x + h) - g(x)) + c * (h * h))
  }

  ghost predicate GrowsAtMost(f: real -> real, g: real -> real, c: real, r: real) {
    && c >= 0.0 && r >= 0.0
    && (forall x: real :: 0.0 <= x <= r ==> f(x) >= 0.0)
    && (forall x: real, h: real :: 0.0 <= x && 0.0 <= h && x + h <= r ==> StepAtMost(f, g, c, x, h))
  }

  /** One step of f grows at least as the exponential of g does, whose slope is bounded. */
  ghost predicate StepAtLeast(f: real -> real, g: real -> real, k: real, x: real, h: real) {
    f(x + h) >= Times(f(x), 1.0 + (g(x + h) - g(x))) && 0.0 <= g(x + h) - g(x) <= k * h
  }

  ghost predicate GrowsAtLeast(f: real -> real, g: real -> real, k: real, r: real) {
    && k >= 0.0 && r >= 0.0
    && (forall x: real :: 0.0 <= x <= r ==> f(x) >= 0.0)
    && (forall x: real, h: real :: 0.0 <= x && 0.0 <= h && x + h <= r ==> StepAtLeast(f, g, k, x, h))
  }

  /** The start of step i when r is cut into n steps. */
  ghost function Cut(r: real, n: nat, i: nat): real
    requires 0 < n
  {
    i as real * (r / n as real)
  }

  lemma CutBounds(r: real, n: nat, i: nat)
    requires 0 < n && i <= n && r >= 0.0
    ensures 0.0 <= Cut(r, n, i) <= r && Cut(r, n, n) == r && Cut(r, n, 0) == 0.0
    ensures Cut(r, n, i + 1) == Cut(r, n, i) + r / n as real
  {
    var h := r / n as real;
    assert h * n as real == r;
    assert h >= 0.0;
    TimesMono(0.0, i as real, h);
    TimesMono(i as real, n as real, h);
  }

  lemma UpStep(e: real -> real, f: real, f': real, f0: real, d: real, s: real, q: real)
    requires IsExponential(e) && f >= 0.0 && f <= Times(f0, e(s)) && f' <= Times(f, 1.0 + d + q)
    ensures f' <= Times(f0, e(s + (d + q)))
  {
    assert AboveTangent(e, d + q) && AddsUp(e, s, d + q);
    Positive(e, d + q);
    TimesMono(1.0 + d + q, e(d + q), f);
    TimesMono(f, Times(f0, e(s)), e(d + q));
    TimesSymmetric(f, 1.0 + d + q);
    TimesSymmetric(f, e(d + q));
    Regrouped(f0, e(s), e(d + q));
  }

  lemma Regrouped(a: real, b: real, c: real)
    ensures Times(Times(a, b), c) == Times(a, Times(b, c))
  {
  }

  /** The quadratic error of one step when r is cut into n. */
  ghost function StepError(c: real, r: real, n: nat): real
    requires n > 0
  {
    c * (r / n as real * (r / n as real))
  }

  /** What the quadratic errors of i steps add up to. */
  ghost function Errors(c: real, r: real, n: nat, i: nat): real
    requires n > 0
  {
    i as real * StepError(c, r, n)
  }

  lemma ErrorsAddUp(c: real, r: real, n: nat, i: nat)
    requires n > 0
    ensures Errors(c, r, n, 0) == 0.0
    ensures Errors(c, r, n, i + 1) == Errors(c, r, n, i) + StepError(c, r, n)
    ensures Errors(c, r, n, n) == c * (r * r) / n as real
  {
    var nr := n as real;
    var h := r / nr;
    assert h * nr == r;
    var q := StepError(c, r, n);
    assert nr * q * nr == c * ((h * nr) * (h * nr)) by {
      assert nr * (c * (h * h)) * nr == c * ((h * nr) * (h * nr));
    }
    assert Errors(c, r, n, n) * nr == c * (r * r);
  }

  lemma {:induction false} UpSteps(e: real -> real, f: real -> real, g: real -> real, c: real, r: real, n: nat, i: nat)
    requires IsExponential(e) && GrowsAtMost(f, g, c, r) && 0 < n && i <= n
    ensures f(Cut(r, n, i)) <= Times(f(0.0), e(g(Cut(r, n, i)) - g(0.0) + Errors(c, r, n, i)))
  {
    if i == 0 {
      CutBounds(r, n, 0);
      ErrorsAddUp(c, r, n, 0);
      AtZero(e);
    } else {
      var j, h := i - 1, r / n as real;
      UpSteps(e, f, g, c, r, n, j);
      CutBounds(r, n, j);
      CutBounds(r, n, i);
      ErrorsAddUp(c, r, n, j);
      var x := Cut(r, n, j);
      assert f(x) >= 0.0 && StepAtMost(f, g, c, x, h);
      var d, done := g(x + h) - g(x), g(x) - g(0.0) + Errors(c, r, n, j);
      UpStep(e, f(x), f(x + h), f(0.0), d, done, StepError(c, r, n));
    }
  }

  /** One step down: 1 + d is more than the exponential of d less its square. */
  lemma TangentAbove(e: real -> real, d: real)
    requires IsExponential(e) && d >= 0.0
    ensures e(d - d * d) <= 1.0 + d
  {
    var t := d - d * d;
    BelowInverse(e, t);
    Positive(e, t);
    assert (1.0 + d) * (1.0 - t) == 1.0 + d * d * d;
    assert 1.0 - t > 0.0 && d * d * d >= 0.0;
    if e(t) > 1.0 + d {
      RealMulMono(1.0 + d, e(t), 1.0 - t);
    }
  }

  lemma DownStep(e: real -> real, f: real, f': real, f0: real, d: real, s: real, q: real)
    requires IsExponential(e) && f >= 0.0 && f >= Times(f0, e(s)) && f' >= Times(f, 1.0 + d) && d >= 0.0 && d * d <= q
    ensures f' >= Times(f0, e(s + (d - q)))
  {
    assert AddsUp(e, s, d - q);
    TangentAbove(e, d);
    Monotone(e, d - q, d - d * d);
    Positive(e, d - q);
    TimesMono(e(d - q), 1.0 + d, f);
    TimesMono(Times(f0, e(s)), f, e(d - q));
    TimesSymmetric(f, 1.0 + d);
    TimesSymmetric(f, e(d - q));
    Regrouped(f0, e(s), e(d - q));
  }

  lemma SquareAtMost(d: real, k: real, h: real)
    requires 0.0 <= d <= k * h
    ensures d * d <= k * k * (h * h)
  {
    TimesMono(d, k * h, d);
    TimesMono(d, k * h, k * h);
    assert k * h * (k * h) == k * k * (h * h);
  }

  lemma {:induction false} DownSteps(e: real -> real, f: real -> real, g: real -> real, k: real, r: real, n: nat, i: nat)
    requires IsExponential(e) && GrowsAtLeast(f, g, k, r) && 0 < n && i <= n
    ensures f(Cut(r, n, i)) >= Times(f(0.0), e(g(Cut(r, n, i)) - g(0.0) - Errors(k * k, r, n, i)))
  {
    if i == 0 {
      CutBounds(r, n, 0);
      ErrorsAddUp(k * k, r, n, 0);
      AtZero(e);
    } else {
      var j, h := i - 1, r / n as real;
      DownSteps(e, f, g, k, r, n, j);
      CutBounds(r, n, j);
      CutBounds(r, n, i);
      ErrorsAddUp(k * k, r, n, j);
      var x := Cut(r, n, j);
      assert f(x) >= 0.0 && StepAtLeast(f, g, k, x, h);
      var d, done := g(x + h) - g(x), g(x) - g(0.0) - Errors(k * k, r, n, j);
      SquareAtMost(d, k, h);
      DownStep(e, f(x), f(x + h), f(0.0), d, done, StepError(k * k, r, n));
    }
  }

  /** If a is at most b but for a factor that tends to one, it is at most b. */
  ghost predicate WithinFactor(e: real -> real, a: real, b: real, m: real, n: nat)
    requires n > 0
  {
    a <= Times(b, e(m / n as real))
  }

  lemma InLimit(e: real -> real, a: real, b: real, m: real)
    requires IsExponential(e) && b >= 0.0 && m >= 0.0
    requires forall n: nat :: n > 0 ==> WithinFactor(e, a, b, m, n)
    ensures a <= b
  {
    if a > b {
      var t := Times(a, m) / (a - b);
      TimesMono(0.0, m, a);
      TimesSymmetric(a, m);
      assert Times(t, a - b) == Times(a, m);
      ByWeight(0.0, t, a - b);
      var n: nat := t.Floor + 1;
      assert WithinFactor(e, a, b, m, n);
      FactorShare(e, a, b, m, n);
      ByWeight(n as real, t, a - b);
    }
  }

  lemma FactorShare(e: real -> real, a: real, b: real, m: real, n: nat)
    requires IsExponential(e) && n > 0 && m >= 0.0 && a > b >= 0.0 && WithinFactor(e, a, b, m, n)
    ensures Times(n as real, a - b) <= Times(a, m)
  {
    var q := m / n as real;
    assert q * n as real == m;
    if q < 1.0 {
      BelowInverse(e, q);
      TimesMono(a, Times(b, e(q)), 1.0 - q);
      TimesMono(Times(e(q), 1.0 - q), 1.0, b);
      Regrouped(b, e(q), 1.0 - q);
      TimesSymmetric(b, Times(e(q), 1.0 - q));
      assert Times(a, 1.0 - q) == a - a * q;
      assert a - b <= a * q;
      TimesMono(a - b, a * q, n as real);
      assert a * q * n as real == a * m;
    } else {
      TimesMono(1.0, q, n as real);
      TimesMono(n as real, m, a);
      TimesMono(0.0, b, n as real);
      TimesSymmetric(n as real, a);
      TimesSymmetric(m, a);
    }
  }

  /** A function that grows at most as the exponential of another, step by step, does so over the whole interval. */
  lemma ComparisonAbove(e: real -> real, f: real -> real, g: real -> real, c: real, r: real)
    requires IsExponential(e) && GrowsAtMost(f, g, c, r)
    ensures f(r) <= Times(f(0.0), e(g(r) - g(0.0)))
  {
    var d, m := g(r) - g(0.0), c * (r * r);
    var b := Times(f(0.0), e(d));
    assert f(0.0) >= 0.0;
    Positive(e, d);
    TimesMono(0.0, f(0.0), e(d));
    TimesMono(0.0, r * r, c);
    forall n: nat | n > 0 ensures WithinFactor(e, f(r), b, m, n) {
      UpSteps(e, f, g, c, r, n, n);
      CutBounds(r, n, n);
      ErrorsAddUp(c, r, n, n);
      assert AddsUp(e, d, m / n as real);
      Regrouped(f(0.0), e(d), e(m / n as real));
    }
    InLimit(e, f(r), b, m);
  }

  lemma ComparisonBelow(e: real -> real, f: real -> real, g: real -> real, k: real, r: real)
    requires IsExponential(e) && GrowsAtLeast(f, g, k, r)
    ensures f(r) >= Times(f(0.0), e(g(r) - g(0.0)))
  {
    var d, m := g(r) - g(0.0), k * k * (r * r);
    var a := Times(f(0.0), e(d));
    assert f(r) >= 0.0;
    TimesMono(0.0, r * r, k * k);
    forall n: nat | n > 0 ensures WithinFactor(e, a, f(r), m, n) {
      var q := m / n as real;
      DownSteps(e, f, g, k, r, n, n);
      CutBounds(r, n, n);
      ErrorsAddUp(k * k, r, n, n);
      assert Cut(r, n, n) == r && Errors(k * k, r, n, n) == q;
      assert f(r) >= Times(f(0.0), e(d - q));
      assert AddsUp(e, d - q, q) && d - q + q == d;
      Positive(e, q);
      TimesMono(Times(f(0.0), e(d - q)), f(r), e(q));
      Regrouped(f(0.0), e(d - q), e(q));
    }
    InLimit(e, a, f(r), m);
  }

  // ---------------------------------------------------------------- the two laws leave no choice

  ghost function Identity(): real -> real {
    (x: real) => x
  }

  lemma OwnStep(f: real -> real, x: real, h: real)
    requires IsExponential(f) && h >= 0.0
    ensures StepAtLeast(f, Identity(), 1.0, x, h)
  {
    assert AddsUp(f, x, h) && AboveTangent(f, h);
    Positive(f, x);
    TimesMono(1.0 + h, f(h), f(x));
    TimesSymmetric(f(x), f(h));
    TimesSymmetric(f(x), 1.0 + h);
  }

  lemma OwnGrowth(f: real -> real, r: real)
    requires IsExponential(f) && r >= 0.0
    ensures GrowsAtLeast(f, Identity(), 1.0, r)
  {
    forall x: real | 0.0 <= x <= r ensures f(x) >= 0.0 {
      Positive(f, x);
    }
    forall x: real, h: real | 0.0 <= x && 0.0 <= h && x + h <= r ensures StepAtLeast(f, Identity(), 1.0, x, h) {
      OwnStep(f, x, h);
    }
  }

  lemma NotBelow(e: real -> real, f: real -> real, r: real)
    requires IsExponential(e) && IsExponential(f) && r >= 0.0
    ensures f(r) >= e(r)
  {
    var g := Identity();
    OwnGrowth(f, r);
    ComparisonBelow(e, f, g, 1.0, r);
    AtZero(f);
    assert g(r) - g(0.0) == r;
  }

  lemma SameInverse(u: real, v: real, w: real)
    requires Times(u, w) == Times(v, w) && w > 0.0
    ensures u == v
  {
    if u < v {
      RealMulMono(u, v, w);
    } else if v < u {
      RealMulMono(v, u, w);
    }
  }

  /** There is no more than one such function. */
  lemma UniqueTheorem(e: real -> real, f: real -> real, x: real)
    requires IsExponential(e) && IsExponential(f)
    ensures e(x) == f(x)
  {
    var size := if x >= 0.0 then x else -x;
    NotBelow(e, f, size);
    NotBelow(f, e, size);
    Opposite(e, x);
    Opposite(f, x);
    Positive(e, -x);
    if x < 0.0 {
      SameInverse(e(x), f(x), e(-x));
    }
  }

  // ---------------------------------------------------------------- relative errors

  /** u and v differ by at most the factor e(d), either way. */
  ghost predicate Within(e: real -> real, u: real, v: real, d: real) {
    u >= 0.0 && v >= 0.0 && u <= Times(v, e(d)) && v <= Times(u, e(d))
  }

  lemma WithinSelf(e: real -> real, u: real)
    requires IsExponential(e) && u >= 0.0
    ensures Within(e, u, u, 0.0)
  {
    AtZero(e);
  }

  lemma WithinMore(e: real -> real, u: real, v: real, d: real, d': real)
    requires IsExponential(e) && Within(e, u, v, d) && d <= d'
    ensures Within(e, u, v, d')
  {
    Monotone(e, d, d');
    TimesMono(e(d), e(d'), u);
    TimesMono(e(d), e(d'), v);
    TimesSymmetric(u, e(d));
    TimesSymmetric(u, e(d'));
    TimesSymmetric(v, e(d));
    TimesSymmetric(v, e(d'));
  }

  lemma WithinHalf(e: real -> real, u: real, v: real, w: real, c: real, d: real)
    requires IsExponential(e) && u <= Times(v, e(c)) && v <= Times(w, e(d))
    ensures u <= Times(w, e(c + d))
  {
    assert AddsUp(e, d, c);
    assert d + c == c + d;
    Positive(e, c);
    TimesMono(v, Times(w, e(d)), e(c));
    Regrouped(w, e(d), e(c));
  }

  /** Relative errors add up along a chain. */
  lemma WithinChain(e: real -> real, u: real, v: real, w: real, c: real, d: real)
    requires IsExponential(e) && Within(e, u, v, c) && Within(e, v, w, d)
    ensures Within(e, u, w, c + d)
  {
    WithinHalf(e, u, v, w, c, d);
    WithinHalf(e, w, v, u, d, c);
    assert d + c == c + d;
  }

  lemma HalfProduct(e: real -> real, u: real, v: real, s: real, t: real, c: real, d: real)
    requires IsExponential(e) && 0.0 <= u <= Times(v, e(c)) && 0.0 <= s <= Times(t, e(d)) && v >= 0.0
    ensures Times(u, s) <= Times(Times(v, t), e(c + d))
  {
    assert AddsUp(e, c, d);
    Positive(e, c);
    TimesMono(0.0, v, e(c));
    TimesMono(u, Times(v, e(c)), s);
    TimesMono(s, Times(t, e(d)), Times(v, e(c)));
    TimesSymmetric(s, Times(v, e(c)));
    FourFactors(v, e(c), t, e(d));
  }

  lemma FourFactors(a: real, b: real, c: real, d: real)
    ensures Times(Times(c, d), Times(a, b)) == Times(Times(a, c), Times(b, d))
  {
    Regrouped(c, d, Times(a, b));
    Regrouped(a, c, Times(b, d));
    assert Times(d, Times(a, b)) == Times(a, Times(b, d));
    assert Times(c, Times(a, Times(b, d))) == Times(a, Times(c, Times(b, d)));
  }

  /** And under multiplication. */
  lemma WithinProduct(e: real -> real, u: real, v: real, s: real, t: real, c: real, d: real)
    requires IsExponential(e) && Within(e, u, v, c) && Within(e, s, t, d)
    ensures Within(e, Times(u, s), Times(v, t), c + d)
  {
    HalfProduct(e, u, v, s, t, c, d);
    HalfProduct(e, v, u, t, s, c, d);
    TimesMono(0.0, u, s);
    TimesMono(0.0, v, t);
  }

  /** Two numbers that differ by at most a share d of either. */
  lemma WithinShare(e: real -> real, u: real, v: real, d: real)
    requires IsExponential(e) && u >= 0.0 && v >= 0.0 && u <= Times(v, 1.0 + d) && v <= Times(u, 1.0 + d)
    ensures Within(e, u, v, d)
  {
    assert AboveTangent(e, d);
    TimesMono(1.0 + d, e(d), u);
    TimesMono(1.0 + d, e(d), v);
    TimesSymmetric(u, e(d));
    TimesSymmetric(u, 1.0 + d);
    TimesSymmetric(v, e(d));
    TimesSymmetric(v, 1.0 + d);
  }

  /** Exponentials whose exponents are close. */
  lemma WithinExponents(e: real -> real, x: real, y: real, d: real)
    requires IsExponential(e) && -d <= x - y <= d
    ensures Within(e, e(x), e(y), d)
  {
    Positive(e, x);
    Positive(e, y);
    assert AddsUp(e, y, d) && AddsUp(e, x, d);
    Monotone(e, x, y + d);
    Monotone(e, y, x + d);
  }
}
