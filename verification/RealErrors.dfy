/** How an error bound travels through one exact multiplication, in real arithmetic. */
module RealErrors {

  ghost function Abs(r: real): real {
    if r >= 0.0 then r else -r
  }

  /** A product, named so that proofs can carry it around whole. */
  function Times(x: real, y: real): real {
    x * y
  }

  ghost predicate Near(x: real, y: real, bound: real) {
    -bound <= x - y <= bound
  }

  lemma RealQuotient(p: int, w: int)
    requires w > 0 && -w <= 2 * p <= w
    ensures Abs(p as real / w as real) <= 0.5
  {
    var q := p as real / w as real;
    assert q * w as real == p as real;
    if q > 0.5 {
      RealMulMono(0.5, q, w as real);
    } else if q < -0.5 {
      RealMulMono(q, -0.5, w as real);
    }
  }

  lemma RealMulMono(p: real, q: real, w: real)
    requires p < q && w > 0.0
    ensures p * w < q * w
  {
  }

  /** Comparing two numbers by comparing their products with a positive one. */
  lemma ByWeight(u: real, v: real, w: real)
    requires w > 0.0 && Times(u, w) <= Times(v, w)
    ensures u <= v
  {
    if v < u {
      RealMulMono(v, u, w);
    }
  }

  lemma TimesMono(p: real, q: real, w: real)
    requires p <= q && w >= 0.0
    ensures Times(p, w) <= Times(q, w)
  {
  }

  lemma TimesSymmetric(x: real, y: real)
    ensures Times(x, y) == Times(y, x)
  {
  }

  lemma HalvedProduct(e: real, r: real)
    requires Abs(r) <= 0.5
    ensures Abs(Times(e, r)) <= Abs(e) / 2.0
  {
    var w := Abs(e);
    TimesMono(r, 0.5, w);
    TimesMono(-0.5, r, w);
    SignedProduct(w, r);
    TimesSymmetric(w, r);
  }

  /** Dividing the integer rounding error of one term by its denominator. */
  lemma RealError(t: int, term: int, p: int, w: int, bound: real)
    requires w > 0 && term >= 0 && bound >= 0.0
    requires Abs((t * w - term * p) as real) <= bound * w as real
    ensures Near(t as real, Times(term as real, p as real / w as real), bound)
  {
    var q, wr := p as real / w as real, w as real;
    var d := t as real - term as real * q;
    assert q * wr == p as real;
    assert d * wr == t as real * wr - term as real * (q * wr);
    assert t as real * wr == (t * w) as real && term as real * p as real == (term * p) as real;
    if d > bound {
      RealMulMono(bound, d, wr);
    } else if d < -bound {
      RealMulMono(d, -bound, wr);
      assert (-bound) * wr == -(bound * wr);
    }
  }

  lemma SignedProduct(x: real, y: real)
    ensures Times(-x, y) == -Times(x, y) == Times(x, -y) && Times(-x, -y) == Times(x, y)
  {
  }

  lemma DifferenceOfProducts(s: real, e: real, r: real)
    ensures Times(s - e, r) == Times(s, r) - Times(e, r)
  {
  }

  /** A bound on the size of a rounding error is a bound on the signed error. */
  lemma SignedError(was: bool, negative: bool, t: real, term: real, q: real, r: real, share: real)
    requires r == (if was != negative then -q else q)
    requires Near(t, Times(term, q), share)
    ensures Near(if negative then -t else t, Times(if was then -term else term, r), share)
  {
    SignedProduct(term, q);
  }

  /** Multiplying by a ratio of at most a half halves the error carried over. */
  lemma ErrorStep(s: real, s': real, e: real, r: real, share: real, carried: real)
    requires Abs(r) <= 0.5 && Near(s, e, carried) && Near(s', Times(s, r), share)
    ensures Near(s', Times(e, r), share + carried / 2.0)
  {
    HalvedProduct(s - e, r);
    DifferenceOfProducts(s, e, r);
  }

  lemma SignedErrorStep(was: bool, negative: bool, t: real, term: real, q: real, r: real, e: real, share: real, carried: real)
    requires r == (if was != negative then -q else q) && Abs(r) <= 0.5
    requires Near(t, Times(term, q), share) && Near(if was then -term else term, e, carried)
    ensures Near(if negative then -t else t, Times(e, r), share + carried / 2.0)
  {
    SignedError(was, negative, t, term, q, r, share);
    ErrorStep(if was then -term else term, if negative then -t else t, e, r, share, carried);
  }
}
